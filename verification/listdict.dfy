/** A Python `dict` whose values are lists, in insertion order of the keys:
    the shape of a node's services by scheme, of the static transports by
    message type and of the subscriptions by message type. */
module ListDict {
  type Dict<K, V> = seq<(K, seq<V>)>

  /** The keys, in insertion order. */
  function Keys<K, V>(m: Dict<K, V>): seq<K> {
    if |m| == 0 then [] else [m[0].0] + Keys(m[1..])
  }

  /** `d.get(k, [])` */
  function Get<K(==), V>(m: Dict<K, V>, k: K): (r: seq<V>)
    ensures k !in Keys(m) ==> r == []
  {
    if |m| == 0 then []
    else if m[0].0 == k then m[0].1
    else Get(m[1..], k)
  }

  /** Every key present maps to at least one value. */
  predicate NoEmptyLists<K, V>(m: Dict<K, V>) {
    forall i :: 0 <= i < |m| ==> |m[i].1| > 0
  }

  lemma {:induction false} PresentIffNonEmpty<K, V>(m: Dict<K, V>, k: K)
    requires NoEmptyLists(m)
    ensures k in Keys(m) <==> |Get(m, k)| > 0
  {
    if |m| > 0 && m[0].0 != k {
      PresentIffNonEmpty(m[1..], k);
    }
  }

  /** `d[k].append(v)`, or `d[k] = [v]` when `k` is new. */
  function Append<K(==), V>(m: Dict<K, V>, k: K, v: V): (r: Dict<K, V>)
    ensures NoEmptyLists(m) ==> NoEmptyLists(r)
  {
    if |m| == 0 then [(k, [v])]
    else if m[0].0 == k then [(k, m[0].1 + [v])] + m[1..]
    else [m[0]] + Append(m[1..], k, v)
  }

  /** Appending extends the list of its own key and no other. */
  lemma {:induction false} AppendGet<K, V>(m: Dict<K, V>, k: K, v: V, k': K)
    ensures Get(Append(m, k, v), k') == Get(m, k') + (if k == k' then [v] else [])
  {
    if |m| > 0 && m[0].0 != k {
      AppendGet(m[1..], k, v, k');
      assert ([m[0]] + Append(m[1..], k, v))[1..] == Append(m[1..], k, v);
    } else if |m| > 0 {
      assert ([(k, m[0].1 + [v])] + m[1..])[1..] == m[1..];
    }
  }

  /** A new key goes last; a present key keeps its place. */
  lemma {:induction false} AppendKeys<K, V>(m: Dict<K, V>, k: K, v: V)
    ensures Keys(Append(m, k, v)) == if k in Keys(m) then Keys(m) else Keys(m) + [k]
  {
    if |m| > 0 {
      assert Keys(m) == [m[0].0] + Keys(m[1..]);
      if m[0].0 != k {
        AppendKeys(m[1..], k, v);
        assert Append(m, k, v)[1..] == Append(m[1..], k, v);
      } else {
        assert Append(m, k, v)[1..] == m[1..];
      }
    }
  }
}
