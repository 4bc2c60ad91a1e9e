/** The node map `Dict[Tuple[int, str], IMCNode]` of both actor revisions,
    and `resolve_node_id` over it. A Python dict keeps insertion order, so
    the map is a sequence of entries with distinct keys: a new key is
    appended, an existing key is updated in place. */
module NodeTable {
  import opened Prelude

  datatype Entry<N> = Entry(key: NodeKey, node: N)

  type Table<N> = seq<Entry<N>>

  predicate UniqueKeys<N>(t: Table<N>) {
    forall i, j :: 0 <= i < j < |t| ==> t[i].key != t[j].key
  }

  /** `list(d.keys())` */
  function KeysOf<N>(t: Table<N>): (ks: seq<NodeKey>)
    ensures |ks| == |t|
    ensures forall i :: 0 <= i < |t| ==> ks[i] == t[i].key
  {
    if |t| == 0 then [] else [t[0].key] + KeysOf(t[1..])
  }

  /** `d.get(k)` */
  function Find<N>(t: Table<N>, k: NodeKey): (r: Option<N>)
    ensures r.None? <==> k !in KeysOf(t)
  {
    if |t| == 0 then None
    else if t[0].key == k then Some(t[0].node)
    else
      assert KeysOf(t) == [t[0].key] + KeysOf(t[1..]);
      Find(t[1..], k)
  }

  lemma {:induction false} FindUnique<N>(t: Table<N>, i: int)
    requires UniqueKeys(t) && 0 <= i < |t|
    ensures Find(t, t[i].key) == Some(t[i].node)
  {
    if i > 0 {
      FindUnique(t[1..], i - 1);
    }
  }

  lemma FindCons<N>(e: Entry<N>, t: Table<N>, k: NodeKey)
    ensures Find([e] + t, k) == if e.key == k then Some(e.node) else Find(t, k)
    ensures KeysOf([e] + t) == [e.key] + KeysOf(t)
  {
    assert ([e] + t)[1..] == t;
  }

  /** `d[k] = n`: updates in place when `k` is present, appends otherwise. */
  function Put<N>(t: Table<N>, k: NodeKey, n: N): (r: Table<N>)
    ensures |r| == if k in KeysOf(t) then |t| else |t| + 1
  {
    if |t| == 0 then [Entry(k, n)]
    else
      assert KeysOf(t) == [t[0].key] + KeysOf(t[1..]);
      if t[0].key == k then [Entry(k, n)] + t[1..]
      else [t[0]] + Put(t[1..], k, n)
  }

  /** After `d[k] = n`, `d[k]` is `n` and every other key maps as before. */
  lemma {:induction false} PutFind<N>(t: Table<N>, k: NodeKey, n: N, k': NodeKey)
    ensures Find(Put(t, k, n), k') == if k' == k then Some(n) else Find(t, k')
  {
    if |t| > 0 {
      assert t == [t[0]] + t[1..];
      FindCons(t[0], t[1..], k');
      if t[0].key == k {
        FindCons(Entry(k, n), t[1..], k');
      } else {
        PutFind(t[1..], k, n, k');
        FindCons(t[0], Put(t[1..], k, n), k');
      }
    }
  }

  /** Assignment keeps the key order: an existing key stays where it was, a
      new one goes last. */
  lemma {:induction false} PutKeys<N>(t: Table<N>, k: NodeKey, n: N)
    ensures KeysOf(Put(t, k, n)) == if k in KeysOf(t) then KeysOf(t) else KeysOf(t) + [k]
  {
    if |t| > 0 {
      assert t == [t[0]] + t[1..];
      FindCons(t[0], t[1..], k);
      if t[0].key == k {
        FindCons(Entry(k, n), t[1..], k);
      } else {
        PutKeys(t[1..], k, n);
        FindCons(t[0], Put(t[1..], k, n), k);
      }
    }
  }

  /** `del d[k]`, and nothing when `k` is absent. */
  function Delete<N>(t: Table<N>, k: NodeKey): (r: Table<N>)
    ensures |r| <= |t|
  {
    if |t| == 0 then []
    else if t[0].key == k then Delete(t[1..], k)
    else [t[0]] + Delete(t[1..], k)
  }

  /** After `del d[k]`, `k` is gone and every other key maps as before. */
  lemma {:induction false} DeleteFind<N>(t: Table<N>, k: NodeKey, k': NodeKey)
    ensures Find(Delete(t, k), k') == if k' == k then None else Find(t, k')
  {
    if |t| > 0 {
      assert t == [t[0]] + t[1..];
      FindCons(t[0], t[1..], k');
      DeleteFind(t[1..], k, k');
      if t[0].key != k {
        FindCons(t[0], Delete(t[1..], k), k');
      }
    }
  }

  /** Assignment keeps the keys distinct. */
  lemma PutUnique<N>(t: Table<N>, k: NodeKey, n: N)
    requires UniqueKeys(t)
    ensures UniqueKeys(Put(t, k, n))
  {
    PutKeys(t, k, n);
    var r := Put(t, k, n);
    forall i, j | 0 <= i < j < |r| ensures r[i].key != r[j].key {
      assert KeysOf(r)[i] == r[i].key && KeysOf(r)[j] == r[j].key;
      if k !in KeysOf(t) && j == |t| {
        assert KeysOf(t)[i] == t[i].key;
      } else {
        assert KeysOf(t)[i] == t[i].key && KeysOf(t)[j] == t[j].key;
      }
    }
  }

  /** Every entry satisfies `p`: each stored node agrees with its key, say. */
  predicate AllEntries<N>(t: Table<N>, p: Entry<N> -> bool) {
    forall i :: 0 <= i < |t| ==> p(t[i])
  }

  lemma {:induction false} FindAllEntries<N>(t: Table<N>, p: Entry<N> -> bool, k: NodeKey)
    requires AllEntries(t, p) && Find(t, k).Some?
    ensures p(Entry(k, Find(t, k).value))
  {
    if t[0].key != k {
      FindAllEntries(t[1..], p, k);
    }
  }

  lemma PutAllEntries<N>(t: Table<N>, p: Entry<N> -> bool, k: NodeKey, n: N)
    requires AllEntries(t, p) && p(Entry(k, n))
    ensures AllEntries(Put(t, k, n), p)
  {
    if |t| > 0 && t[0].key != k {
      PutAllEntries(t[1..], p, k, n);
    }
  }

  /** The entries whose key is not among `ks`, in order. */
  function DropKeys<N>(t: Table<N>, ks: seq<NodeKey>): (r: Table<N>)
    ensures |r| <= |t|
    ensures forall i :: 0 <= i < |r| ==> r[i] in t && r[i].key !in ks
  {
    if |t| == 0 then []
    else
      var rest := DropKeys(t[1..], ks);
      assert forall e :: e in t[1..] ==> e in t;
      if t[0].key in ks then rest else [t[0]] + rest
  }

  lemma {:induction false} DeleteIsDrop<N>(t: Table<N>, k: NodeKey)
    ensures Delete(t, k) == DropKeys(t, [k])
  {
    if |t| > 0 {
      DeleteIsDrop(t[1..], k);
    }
  }

  lemma {:induction false} DropTwice<N>(t: Table<N>, a: seq<NodeKey>, b: seq<NodeKey>)
    ensures DropKeys(DropKeys(t, a), b) == DropKeys(t, a + b)
  {
    if |t| > 0 {
      DropTwice(t[1..], a, b);
      if t[0].key !in a {
        assert ([t[0]] + DropKeys(t[1..], a))[1..] == DropKeys(t[1..], a);
      }
    }
  }

  lemma {:induction false} DropKeysOf<N>(t: Table<N>, ks: seq<NodeKey>, k: NodeKey)
    ensures k in KeysOf(DropKeys(t, ks)) <==> k in KeysOf(t) && k !in ks
  {
    if |t| > 0 {
      DropKeysOf(t[1..], ks, k);
      assert KeysOf(t) == [t[0].key] + KeysOf(t[1..]);
      if t[0].key !in ks {
        FindCons(t[0], DropKeys(t[1..], ks), k);
      }
    }
  }

  lemma DropAllEntries<N>(t: Table<N>, p: Entry<N> -> bool, ks: seq<NodeKey>)
    requires AllEntries(t, p)
    ensures AllEntries(DropKeys(t, ks), p)
  {
    var r := DropKeys(t, ks);
    forall i | 0 <= i < |r| ensures p(r[i]) {
      var j :| 0 <= j < |t| && t[j] == r[i];
    }
  }

  /** The keys of the entries whose node satisfies `p`, in order. */
  function KeysWhere<N>(t: Table<N>, p: N -> bool): (ks: seq<NodeKey>)
    ensures forall k :: k in ks ==> k in KeysOf(t)
  {
    if |t| == 0 then []
    else
      assert KeysOf(t) == [t[0].key] + KeysOf(t[1..]);
      (if p(t[0].node) then [t[0].key] else []) + KeysWhere(t[1..], p)
  }

  /** The entries whose node does not satisfy `p`, in order. */
  function RemoveWhere<N>(t: Table<N>, p: N -> bool): (r: Table<N>)
    ensures forall i :: 0 <= i < |r| ==> r[i] in t && !p(r[i].node)
    ensures forall i :: 0 <= i < |t| && !p(t[i].node) ==> t[i] in r
  {
    if |t| == 0 then []
    else
      assert forall i :: 0 < i < |t| ==> t[i] == t[1..][i - 1];
      assert forall e :: e in t[1..] ==> e in t;
      if p(t[0].node) then RemoveWhere(t[1..], p)
      else [t[0]] + RemoveWhere(t[1..], p)
  }

  /** No key occurs twice in `ks`. */
  predicate NoDups(ks: seq<NodeKey>) {
    |ks| == 0 || (ks[0] !in ks[1..] && NoDups(ks[1..]))
  }

  lemma {:induction false} UniqueTail<N>(t: Table<N>)
    requires UniqueKeys(t) && |t| > 0
    ensures UniqueKeys(t[1..]) && t[0].key !in KeysOf(t[1..])
  {
    var tail := t[1..];
    forall i | 0 <= i < |tail| ensures KeysOf(tail)[i] != t[0].key {
      assert tail[i] == t[i + 1];
    }
  }

  lemma {:induction false} KeysWhereNoDups<N>(t: Table<N>, p: N -> bool)
    requires UniqueKeys(t)
    ensures NoDups(KeysWhere(t, p))
  {
    if |t| > 0 {
      var tail := t[1..];
      UniqueTail(t);
      KeysWhereNoDups(tail, p);
      var ks := KeysWhere(tail, p);
      if p(t[0].node) {
        assert t[0].key !in ks;
        assert KeysWhere(t, p) == [t[0].key] + ks;
        assert ([t[0].key] + ks)[1..] == ks;
      } else {
        assert KeysWhere(t, p) == ks;
      }
    }
  }

  lemma UniqueCons<N>(e: Entry<N>, t: Table<N>)
    requires UniqueKeys(t) && e.key !in KeysOf(t)
    ensures UniqueKeys([e] + t)
  {
    var r := [e] + t;
    forall i, j | 0 <= i < j < |r| ensures r[i].key != r[j].key {
      if i == 0 {
        assert r[j].key == KeysOf(t)[j - 1];
      } else {
        assert r[i] == t[i - 1] && r[j] == t[j - 1];
      }
    }
  }

  /** Keeping entries in order keeps their keys distinct. */
  lemma {:induction false} DropUnique<N>(t: Table<N>, ks: seq<NodeKey>)
    requires UniqueKeys(t)
    ensures UniqueKeys(DropKeys(t, ks))
  {
    if |t| > 0 {
      UniqueTail(t);
      DropUnique(t[1..], ks);
      if t[0].key !in ks {
        DropKeysOf(t[1..], ks, t[0].key);
        UniqueCons(t[0], DropKeys(t[1..], ks));
      }
    }
  }

  lemma {:induction false} DropAbsent<N>(t: Table<N>, ks: seq<NodeKey>, k: NodeKey)
    requires k !in KeysOf(t)
    ensures DropKeys(t, [k] + ks) == DropKeys(t, ks)
  {
    if |t| > 0 {
      assert KeysOf(t) == [t[0].key] + KeysOf(t[1..]);
      DropAbsent(t[1..], ks, k);
    }
  }

  /** With distinct keys, dropping the keys of the entries that satisfy `p`
      removes exactly those entries. */
  lemma {:induction false} DropKeysWhere<N>(t: Table<N>, p: N -> bool)
    requires UniqueKeys(t)
    ensures DropKeys(t, KeysWhere(t, p)) == RemoveWhere(t, p)
  {
    if |t| > 0 {
      var tail := t[1..];
      assert UniqueKeys(tail);
      assert t[0].key !in KeysOf(tail) by {
        forall i | 0 <= i < |tail| ensures KeysOf(tail)[i] != t[0].key {
          assert tail[i] == t[i + 1];
        }
      }
      var ks := KeysWhere(tail, p);
      assert t[0].key !in ks;
      DropKeysWhere(tail, p);
      if p(t[0].node) {
        assert KeysWhere(t, p) == [t[0].key] + ks;
        DropAbsent(tail, ks, t[0].key);
        assert DropKeys(t, [t[0].key] + ks) == DropKeys(tail, [t[0].key] + ks);
      } else {
        assert KeysWhere(t, p) == ks;
        assert DropKeys(t, ks) == [t[0]] + DropKeys(tail, ks);
      }
    }
  }

  // ---------------------------------------------------------------------
  // resolve_node_id
  // ---------------------------------------------------------------------

  /** `[x for x in keys if x[0] == key[0] or x[1] == key[1]]` */
  function Colliding<N>(t: Table<N>, key: NodeKey): (ks: seq<NodeKey>)
    ensures forall k :: k in ks <==> k in KeysOf(t) && (k.addr == key.addr || k.name == key.name)
  {
    if |t| == 0 then []
    else
      assert KeysOf(t) == [t[0].key] + KeysOf(t[1..]);
      var k := t[0].key;
      (if k.addr == key.addr || k.name == key.name then [k] else []) + Colliding(t[1..], key)
  }

  /** A Python value inside a tuple id: an `int` (not a bool), a `str`, or
      anything else. */
  datatype PyValue = PyInt(i: int) | PyStr(s: string) | PyOther

  /** The argument of `resolve_node_id`. */
  datatype NodeId =
    | ByAddr(addr: int)
    | ByName(name: string)
    | ByTuple(items: seq<PyValue>)
      /** an `IMCNode`, resolved through its own `(src, sys_name)` */
    | ByNode(key: NodeKey)
      /** a `pyimc.Message`, resolved through its `src` address */
    | ByMessage(src: int)
    | ByOther

  /** `[x for x in d.keys() if x[0] == a]` */
  function KeysWithAddr<N>(t: Table<N>, a: int): (ks: seq<NodeKey>)
    ensures forall k :: k in ks <==> k in KeysOf(t) && k.addr == a
  {
    if |t| == 0 then []
    else
      assert KeysOf(t) == [t[0].key] + KeysOf(t[1..]);
      (if t[0].key.addr == a then [t[0].key] else []) + KeysWithAddr(t[1..], a)
  }

  /** `[x for x in d.keys() if x[1] == name]` */
  function KeysWithName<N>(t: Table<N>, name: string): (ks: seq<NodeKey>)
    ensures forall k :: k in ks <==> k in KeysOf(t) && k.name == name
  {
    if |t| == 0 then []
    else
      assert KeysOf(t) == [t[0].key] + KeysOf(t[1..]);
      (if t[0].key.name == name then [t[0].key] else []) + KeysWithName(t[1..], name)
  }

  /** No candidates: KeyError; more than one: AmbiguousKeyError with all of
      them; exactly one: that entry. */
  function Choose<N>(t: Table<N>, candidates: seq<NodeKey>): (r: Result<Entry<N>>)
    requires forall k :: k in candidates ==> k in KeysOf(t)
    ensures |candidates| == 0 <==> r == Err(KeyError)
    ensures |candidates| > 1 <==> r == Err(AmbiguousKeyError(candidates))
    ensures |candidates| == 1 <==> r.Ok?
    ensures r.Ok? ==> r.value.key == candidates[0] && Find(t, r.value.key) == Some(r.value.node)
  {
    if |candidates| == 0 then Err(KeyError)
    else if |candidates| > 1 then Err(AmbiguousKeyError(candidates))
    else
      var k := candidates[0];
      assert k in KeysOf(t);
      Ok(Entry(k, Find(t, k).value))
  }

  /** `d[k]`: the entry, or KeyError. */
  function Lookup<N>(t: Table<N>, k: NodeKey): (r: Result<Entry<N>>)
    ensures r.Ok? <==> k in KeysOf(t)
    ensures r.Ok? ==> r.value.key == k && Find(t, k) == Some(r.value.node)
    ensures r.Err? ==> r.exc == KeyError
  {
    match Find(t, k)
    case Some(n) => Ok(Entry(k, n))
    case None => Err(KeyError)
  }

  /** `resolve_node_id(node_id)` over the node map. */
  function Resolve<N>(t: Table<N>, id: NodeId): Result<Entry<N>> {
    match id
    case ByAddr(a) => Choose(t, KeysWithAddr(t, a))
    case ByName(name) => Choose(t, KeysWithName(t, name))
    case ByTuple(items) =>
      if |items| == 0 then Err(IndexError)
      else if !items[0].PyInt? then Err(TypeError)
      else if |items| == 1 then Err(IndexError)
      else if !items[1].PyStr? then Err(TypeError)
      else if |items| == 2 then Lookup(t, NodeKey(items[0].i, items[1].s))
      else Err(KeyError) // a longer tuple is never a key of the map
    case ByNode(k) => Lookup(t, k)
    case ByMessage(src) => Choose(t, KeysWithAddr(t, src))
    case ByOther => Err(TypeError)
  }

  /** Resolving an address or a name looks at that half of the key only:
      the node comes back exactly when one key matches, KeyError when none
      does, and AmbiguousKeyError carrying every match otherwise. A message
      resolves through its source address. */
  lemma ResolvePartialKey<N>(t: Table<N>, id: NodeId)
    requires id.ByAddr? || id.ByName? || id.ByMessage?
    ensures var matches :=
              if id.ByName? then KeysWithName(t, id.name)
              else KeysWithAddr(t, if id.ByAddr? then id.addr else id.src);
            && (Resolve(t, id).Ok? <==> |matches| == 1)
            && (Resolve(t, id).Ok? ==> Resolve(t, id).value.key == matches[0]
                                        && Find(t, matches[0]) == Some(Resolve(t, id).value.node))
            && (Resolve(t, id) == Err(KeyError) <==>
                  forall k :: k in KeysOf(t) ==>
                    if id.ByName? then k.name != id.name
                    else k.addr != (if id.ByAddr? then id.addr else id.src))
            && (|matches| > 1 <==> Resolve(t, id) == Err(AmbiguousKeyError(matches)))
  {
    if id.ByName? {
      var m := KeysWithName(t, id.name);
      if |m| > 0 { assert m[0] in m; }
    } else {
      var m := KeysWithAddr(t, if id.ByAddr? then id.addr else id.src);
      if |m| > 0 { assert m[0] in m; }
    }
  }

  /** A well-typed `(int, str)` tuple, and an `IMCNode`, are exact key
      lookups; a tuple whose first two items are not `int` and `str` is a
      TypeError (or an IndexError when it is too short to tell). */
  lemma ResolveExactKey<N>(t: Table<N>, k: NodeKey)
    ensures Resolve(t, ByTuple([PyInt(k.addr), PyStr(k.name)])) == Lookup(t, k)
    ensures Resolve(t, ByNode(k)) == Lookup(t, k)
    ensures Lookup(t, k).Ok? <==> k in KeysOf(t)
    ensures forall v: PyValue :: !v.PyInt? ==> Resolve(t, ByTuple([v, PyStr(k.name)])) == Err(TypeError)
    ensures forall v: PyValue :: !v.PyStr? ==> Resolve(t, ByTuple([PyInt(k.addr), v])) == Err(TypeError)
  {
  }

  /** A resolved node is the one stored under the resolved key. */
  lemma ResolveFinds<N>(t: Table<N>, id: NodeId)
    requires Resolve(t, id).Ok?
    ensures Find(t, Resolve(t, id).value.key) == Some(Resolve(t, id).value.node)
  {
  }

  /** Dropping no keys keeps the table. */
  lemma {:induction false} DropNothing<N>(t: Table<N>)
    ensures DropKeys(t, []) == t
  {
    if |t| > 0 {
      DropNothing(t[1..]);
    }
  }
}
