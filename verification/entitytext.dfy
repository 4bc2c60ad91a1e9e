/** The textual entity list carried by `EntityList.list`: `label=id` pairs
    joined by `;`. Actors format their own entity dictionary this way,
    ordered by id, when they answer a query; nodes parse a report back
    into a dictionary. */
module EntityText {
  import opened Prelude
  import opened Strings
  import opened StableSort

  /** An entity dictionary `{label: id}`, in insertion order. */
  type Entities = seq<(string, int)>

  predicate DistinctLabels(es: Entities) {
    forall i, j :: 0 <= i < j < |es| ==> es[i].0 != es[j].0
  }

  function Labels(es: Entities): set<string> {
    set p | p in es :: p.0
  }

  /** `d[label] = id`: in place when the label is present, appended
      otherwise. */
  function SetEntity(es: Entities, lbl: string, id: int): (r: Entities)
    ensures lbl !in Labels(es) ==> r == es + [(lbl, id)]
    ensures Labels(r) == Labels(es) + {lbl}
  {
    if |es| == 0 then [(lbl, id)]
    else if es[0].0 == lbl then [(lbl, id)] + es[1..]
    else
      assert es == [es[0]] + es[1..];
      assert Labels(es) == {es[0].0} + Labels(es[1..]);
      var rest := SetEntity(es[1..], lbl, id);
      assert Labels([es[0]] + rest) == {es[0].0} + Labels(rest);
      [es[0]] + rest
  }

  /** The entity id, the sort key of `sorted(..., key=itemgetter(1))`. */
  function EntityId(p: (string, int)): int {
    p.1
  }

  /** `'{}={}'.format(label, id)` */
  function FormatPair(p: (string, int)): string {
    p.0 + "=" + IntToString(p.1)
  }

  function FormatPairs(ps: Entities): (r: seq<string>)
    ensures |r| == |ps|
    ensures forall i :: 0 <= i < |ps| ==> r[i] == FormatPair(ps[i])
  {
    if |ps| == 0 then [] else [FormatPair(ps[0])] + FormatPairs(ps[1..])
  }

  /** The `list` field of an entity-list REPORT: pairs ordered by id
      (stable among equal ids), joined by `;`. */
  function FormatEntityList(es: Entities): string {
    Join(FormatPairs(SortBy(es, EntityId)), ';')
  }

  /** `k, v = x.split('='); k, int(v)`: ValueError unless there is exactly
      one `=` and the text after it is an integer. */
  function ParsePair(x: string): (r: Result<(string, int)>)
    ensures r.Ok? <==> |Split(x, '=')| == 2 && ParseInt(Split(x, '=')[1]).Some?
    ensures r.Err? ==> r.exc == ValueError
    ensures r.Ok? ==> r.value.0 == Split(x, '=')[0] && '=' !in r.value.0
  {
    var kv := Split(x, '=');
    if |kv| != 2 then Err(ValueError)
    else match ParseInt(kv[1])
      case None => Err(ValueError)
      case Some(v) => Ok((kv[0], v))
  }

  /** Folds the pairs into the dictionary in order; the first malformed
      pair aborts with ValueError. */
  function Collect(parts: seq<string>, acc: Entities): (r: Result<Entities>)
    ensures r.Err? <==> exists i :: 0 <= i < |parts| && ParsePair(parts[i]).Err?
    ensures r.Err? ==> r.exc == ValueError
  {
    if |parts| == 0 then Ok(acc)
    else
      match ParsePair(parts[0])
      case Err(e) => Err(e)
      case Ok(p) =>
        FailingPart(parts);
        Collect(parts[1..], SetEntity(acc, p.0, p.1))
  }

  /** Some part fails to parse exactly when the first does or one of the
      rest does. */
  lemma FailingPart(parts: seq<string>)
    requires |parts| > 0
    ensures (exists i :: 0 <= i < |parts| && ParsePair(parts[i]).Err?) <==>
            ParsePair(parts[0]).Err? || exists i :: 0 <= i < |parts[1..]| && ParsePair(parts[1..][i]).Err?
  {
    assert forall i :: 0 <= i < |parts[1..]| ==> parts[1..][i] == parts[i + 1];
    if exists i :: 0 <= i < |parts| && ParsePair(parts[i]).Err? {
      var i :| 0 <= i < |parts| && ParsePair(parts[i]).Err?;
      if i > 0 {
        assert ParsePair(parts[1..][i - 1]).Err?;
      }
    }
  }

  /** `{k: int(v) for k, v in (x.split('=') for x in lst.split(';'))}` */
  function ParseEntityList(lst: string): Result<Entities> {
    Collect(Split(lst, ';'), [])
  }

  /** An empty list string is one empty entry, which has no `=`. */
  lemma ParseEmptyList()
    ensures ParseEntityList("") == Err(ValueError)
  {
    assert Split("", ';') == [""];
    assert Split("", '=') == [""];
    assert ParsePair(Split("", ';')[0]).Err?;
  }

  /** The decimal text of an integer holds digits and `-` only. */
  lemma IntToStringChars(i: int)
    ensures forall c :: c in IntToString(i) ==> c == '-' || IsDigit(c)
  {
    var d := NatToString(if i < 0 then -i else i);
    assert forall c :: c in d ==> IsDigit(c);
  }

  lemma FormatPairParses(p: (string, int))
    requires '=' !in p.0
    ensures ParsePair(FormatPair(p)) == Ok(p)
  {
    var d := IntToString(p.1);
    IntToStringChars(p.1);
    assert '=' !in d;
    assert Join([p.0, d], '=') == FormatPair(p);
    SplitOfJoin([p.0, d], '=');
    ParseIntOfIntToString(p.1);
  }

  lemma CollectStep(parts: seq<string>, acc: Entities, p: (string, int))
    requires |parts| > 0 && ParsePair(parts[0]) == Ok(p)
    ensures Collect(parts, acc) == Collect(parts[1..], SetEntity(acc, p.0, p.1))
  {
  }

  lemma FreshLabel(acc: Entities, ps: Entities)
    requires |ps| > 0 && DistinctLabels(acc + ps)
    ensures ps[0].0 !in Labels(acc)
  {
    forall q | q in acc ensures q.0 != ps[0].0 {
      var j :| 0 <= j < |acc| && acc[j] == q;
      assert (acc + ps)[j] == q && (acc + ps)[|acc|] == ps[0];
    }
  }

  lemma SetFreshLabel(acc: Entities, ps: Entities)
    requires |ps| > 0 && DistinctLabels(acc + ps)
    ensures SetEntity(acc, ps[0].0, ps[0].1) + ps[1..] == acc + ps
  {
    FreshLabel(acc, ps);
    assert ps == [ps[0]] + ps[1..];
  }

  lemma {:induction false} CollectFormatted(ps: Entities, acc: Entities)
    requires DistinctLabels(acc + ps)
    requires forall i :: 0 <= i < |ps| ==> '=' !in ps[i].0
    ensures Collect(FormatPairs(ps), acc) == Ok(acc + ps)
    decreases |ps|
  {
    var parts := FormatPairs(ps);
    if |ps| > 0 {
      var acc' := SetEntity(acc, ps[0].0, ps[0].1);
      assert Collect(parts, acc) == Collect(FormatPairs(ps[1..]), acc') by {
        FormatPairParses(ps[0]);
        CollectStep(parts, acc, ps[0]);
        assert parts[1..] == FormatPairs(ps[1..]);
      }
      SetFreshLabel(acc, ps);
      CollectFormatted(ps[1..], acc');
    } else {
      assert acc + ps == acc;
    }
  }

  /** Inserting a pair whose label is new keeps the labels distinct. */
  lemma InsertKeepsDistinct(x: (string, int), s: Entities)
    requires SortedBy(s, EntityId) && DistinctLabels(s)
    requires forall p :: p in s ==> p.0 != x.0
    ensures DistinctLabels(Insert(x, s, EntityId))
  {
    var i := InsertSplits(x, s, EntityId);
    assert forall j :: 0 <= j < |s| ==> s[j] in s;
    SpliceKeepsDistinct(x, s, i);
  }

  lemma SpliceKeepsDistinct(x: (string, int), s: Entities, i: nat)
    requires i <= |s| && DistinctLabels(s)
    requires forall j :: 0 <= j < |s| ==> s[j].0 != x.0
    ensures DistinctLabels(s[..i] + [x] + s[i..])
  {
    var r := s[..i] + [x] + s[i..];
    assert |r| == |s| + 1;
    assert forall k :: 0 <= k < i ==> r[k] == s[k];
    assert r[i] == x;
    assert forall k :: i < k < |r| ==> r[k] == s[k - 1];
  }

  lemma {:induction false} SortKeepsDistinct(es: Entities)
    requires DistinctLabels(es)
    ensures DistinctLabels(SortBy(es, EntityId))
  {
    if |es| > 0 {
      var tail := SortBy(es[1..], EntityId);
      SortKeepsDistinct(es[1..]);
      assert multiset(tail) == multiset(es[1..]);
      forall p | p in tail ensures p.0 != es[0].0 {
        assert p in multiset(tail);
        assert p in multiset(es[1..]);
        var j :| 0 <= j < |es[1..]| && es[1..][j] == p;
        assert es[j + 1] == p;
      }
      InsertKeepsDistinct(es[0], tail);
      assert SortBy(es, EntityId) == Insert(es[0], tail, EntityId);
    }
  }

  /** A formatted pair holds no `;` unless its label does. */
  lemma FormatPairSeparators(p: (string, int))
    requires ';' !in p.0
    ensures ';' !in FormatPair(p)
  {
    IntToStringChars(p.1);
  }

  /** Parsing a formatted entity list gives back the dictionary, reordered
      by id: the same (label, id) pairs, provided there is at least one
      entity and no label contains `=` or `;`. */
  lemma {:induction false} ParseFormatRoundTrip(es: Entities)
    requires |es| >= 1 && DistinctLabels(es)
    requires forall i :: 0 <= i < |es| ==> '=' !in es[i].0 && ';' !in es[i].0
    ensures ParseEntityList(FormatEntityList(es)) == Ok(SortBy(es, EntityId))
    ensures multiset(SortBy(es, EntityId)) == multiset(es)
  {
    var sorted := SortBy(es, EntityId);
    var parts := FormatPairs(sorted);
    assert Split(Join(parts, ';'), ';') == parts by {
      assert |sorted| >= 1 by {
        assert es[0] in multiset(es);
      }
      forall i | 0 <= i < |parts| ensures ';' !in parts[i] {
        assert sorted[i] in multiset(es);
        var j :| 0 <= j < |es| && es[j] == sorted[i];
        FormatPairSeparators(sorted[i]);
      }
      SplitOfJoin(parts, ';');
    }
    assert Collect(parts, []) == Ok(sorted) by {
      SortKeepsDistinct(es);
      forall i | 0 <= i < |sorted| ensures '=' !in sorted[i].0 {
        assert sorted[i] in multiset(es);
        var j :| 0 <= j < |es| && es[j] == sorted[i];
      }
      CollectFormatted(sorted, []);
      assert [] + sorted == sorted;
    }
  }
}
