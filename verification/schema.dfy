/** The model of an IMC definition that the binding generators work from
    (utils/imc_schema.py): messages with their fields, enumerations and
    bitfields, id ranges, and message groups (supertypes). Reading the XML
    file is not modelled; the parsed elements are the input. */
module Schema {
  import opened Prelude
  import opened Strings

  /** `IMCValue`: one value of an enumeration or bitfield. */
  datatype Value = Value(abbrev: string, name: string, id: string)

  /** `IMCField`, with the attributes the generators read. */
  datatype Field = Field(
    name: string, abbrev: string, typ: string, unit: Option<string>,
    messageType: Option<string>, enumDef: Option<string>, bitfieldDef: Option<string>,
    values: seq<Value>, prefix: Option<string>)

  /** `IMCMessage`. The id is kept as the attribute's text. */
  datatype Msg = Msg(id: string, name: string, abbrev: string, fields: seq<Field>, parent: string)

  /** `IMCEnum`: a global enumeration or bitfield, or one defined inline in
      a field. */
  datatype Enum = Enum(
    name: string, abbrev: string, prefix: Option<string>, unit: Option<string>,
    typ: Option<string>, values: seq<Value>, isInline: bool)

  /** A `message-group`: the supertype's abbreviation and the
      abbreviations of its member messages. */
  type MessageGroup = (string, seq<string>)

  /** Python truthiness of an optional string attribute. */
  predicate Truthy(s: Option<string>) {
    s.Some? && |s.value| > 0
  }

  // ---------------------------------------------------------------------
  // validate
  // ---------------------------------------------------------------------

  /** The first `n` messages have pairwise different ids and pairwise
      different abbreviations. */
  predicate UniqueUpTo(ms: seq<Msg>, n: nat)
    requires n <= |ms|
  {
    forall i, j :: 0 <= i < j < n ==> ms[i].id != ms[j].id && ms[i].abbrev != ms[j].abbrev
  }

  /** What `validate` concludes: nothing, or the ValueError naming the
      message at `at` whose id (or abbreviation) was seen before. */
  datatype Validity = Valid | DuplicateId(at: nat) | DuplicateAbbrev(at: nat)

  /** `IMC.validate()`: scans the messages in order, checking each one's id
      and then its abbreviation against those already seen. */
  method Validate(ms: seq<Msg>) returns (r: Validity)
    ensures r.Valid? <==> UniqueUpTo(ms, |ms|)
    ensures r.DuplicateId? ==> && r.at < |ms| && UniqueUpTo(ms, r.at)
                               && exists j :: 0 <= j < r.at && ms[j].id == ms[r.at].id
    ensures r.DuplicateAbbrev? ==> && r.at < |ms| && UniqueUpTo(ms, r.at)
                                   && (forall j :: 0 <= j < r.at ==> ms[j].id != ms[r.at].id)
                                   && exists j :: 0 <= j < r.at && ms[j].abbrev == ms[r.at].abbrev
  {
    var mgids: set<string> := {};
    var abbrevs: set<string> := {};
    var i := 0;
    while i < |ms|
      invariant i <= |ms| && UniqueUpTo(ms, i)
      invariant forall x :: x in mgids <==> exists j :: 0 <= j < i && ms[j].id == x
      invariant forall x :: x in abbrevs <==> exists j :: 0 <= j < i && ms[j].abbrev == x
    {
      if ms[i].id in mgids {
        return DuplicateId(i);
      }
      if ms[i].abbrev in abbrevs {
        return DuplicateAbbrev(i);
      }
      mgids := mgids + {ms[i].id};
      abbrevs := abbrevs + {ms[i].abbrev};
      i := i + 1;
    }
    return Valid;
  }

  // ---------------------------------------------------------------------
  // parent classes
  // ---------------------------------------------------------------------

  /** The inner loop of the parent assignment in `parse`: every group that
      lists the message overwrites its parent, so the last one wins. */
  function ParentFrom(abbrev: string, groups: seq<MessageGroup>, p: string): string
    decreases |groups|
  {
    if |groups| == 0 then p
    else ParentFrom(abbrev, groups[1..], if abbrev in groups[0].1 then groups[0].0 else p)
  }

  /** The last group that lists the message, searching from the end. */
  function LastListing(abbrev: string, groups: seq<MessageGroup>): (r: Option<nat>)
    ensures r.Some? ==> && r.value < |groups| && abbrev in groups[r.value].1
                        && forall j :: r.value < j < |groups| ==> abbrev !in groups[j].1
    ensures r.None? ==> forall j :: 0 <= j < |groups| ==> abbrev !in groups[j].1
    decreases |groups|
  {
    if |groups| == 0 then None
    else if abbrev in groups[|groups| - 1].1 then Some(|groups| - 1)
    else LastListing(abbrev, groups[..|groups| - 1])
  }

  /** A message's parent is the last group listing it, or what it had. */
  lemma {:induction false} ParentIsLastListing(abbrev: string, groups: seq<MessageGroup>, p: string)
    ensures ParentFrom(abbrev, groups, p)
            == match LastListing(abbrev, groups)
               case Some(k) => groups[k].0
               case None => p
    decreases |groups|
  {
    if |groups| > 0 {
      var p' := if abbrev in groups[0].1 then groups[0].0 else p;
      ParentIsLastListing(abbrev, groups[1..], p');
      var tail := LastListing(abbrev, groups[1..]);
      var all := LastListing(abbrev, groups);
      match tail {
        case Some(k) =>
          assert groups[1..][k] == groups[k + 1];
          LastListingIs(abbrev, groups, k + 1);
        case None =>
          if abbrev in groups[0].1 {
            LastListingIs(abbrev, groups, 0);
          } else {
            assert forall j :: 0 <= j < |groups| ==> abbrev !in groups[j].1 by {
              forall j | 0 <= j < |groups| ensures abbrev !in groups[j].1 {
                if j > 0 { assert groups[1..][j - 1] == groups[j]; }
              }
            }
            LastListingNone(abbrev, groups);
          }
      }
    }
  }

  /** The last listing is determined by where the listing groups are. */
  lemma LastListingIs(abbrev: string, groups: seq<MessageGroup>, k: nat)
    requires k < |groups| && abbrev in groups[k].1
    requires forall j :: k < j < |groups| ==> abbrev !in groups[j].1
    ensures LastListing(abbrev, groups) == Some(k)
  {
  }

  lemma LastListingNone(abbrev: string, groups: seq<MessageGroup>)
    requires forall j :: 0 <= j < |groups| ==> abbrev !in groups[j].1
    ensures LastListing(abbrev, groups) == None
  {
  }

  /** The parent assignment at the end of `parse`, over every message. */
  function AssignParents(ms: seq<Msg>, groups: seq<MessageGroup>): (r: seq<Msg>)
    ensures |r| == |ms|
    ensures forall i :: 0 <= i < |ms| ==> r[i].(parent := ms[i].parent) == ms[i]
  {
    seq(|ms|, i requires 0 <= i < |ms| => ms[i].(parent := ParentFrom(ms[i].abbrev, groups, ms[i].parent)))
  }

  /** After parsing, a message listed in some message group has the last
      such group as its parent class; any other keeps `Message`. */
  lemma ParsedParent(ms: seq<Msg>, groups: seq<MessageGroup>, i: nat)
    requires i < |ms| && ms[i].parent == "Message"
    ensures var p := AssignParents(ms, groups)[i].parent;
            (forall j :: 0 <= j < |groups| ==> ms[i].abbrev !in groups[j].1) ==> p == "Message"
    ensures var p := AssignParents(ms, groups)[i].parent;
            forall k :: 0 <= k < |groups| && ms[i].abbrev in groups[k].1
                        && (forall j :: k < j < |groups| ==> ms[i].abbrev !in groups[j].1)
                        ==> p == groups[k].0
  {
    ParentIsLastListing(ms[i].abbrev, groups, "Message");
    forall k | 0 <= k < |groups| && ms[i].abbrev in groups[k].1
                && (forall j :: k < j < |groups| ==> ms[i].abbrev !in groups[j].1)
      ensures AssignParents(ms, groups)[i].parent == groups[k].0
    {
      LastListingIs(ms[i].abbrev, groups, k);
    }
    if forall j :: 0 <= j < |groups| ==> ms[i].abbrev !in groups[j].1 {
      LastListingNone(ms[i].abbrev, groups);
    }
  }

  // ---------------------------------------------------------------------
  // groups, fields and enumerations
  // ---------------------------------------------------------------------

  /** `imctype_sz`: the (minimum) size in bytes of each IMC type. */
  const SizeTable: map<string, nat> := map[
    "int8_t" := 1, "uint8_t" := 1, "int16_t" := 2, "uint16_t" := 2,
    "int32_t" := 4, "uint32_t" := 4, "int64_t" := 8, "uint64_t" := 8,
    "fp32_t" := 4, "fp64_t" := 8,
    "rawdata" := 2, "plaintext" := 2, "vector" := 2, "message" := 2, "message-list" := 2]

  /** `variable_types` */
  const VariableTypes: seq<string> := ["rawdata", "plaintext", "message", "message-list", "vector"]

  /** `IMCField.is_variable()` */
  predicate IsVariable(f: Field) {
    f.typ in VariableTypes
  }

  /** `IMCField.get_size()`: a lookup in the size table, KeyError for a
      type it does not list. A variable field counts its 2-byte length
      prefix. */
  function GetSize(f: Field): (r: Result<nat>)
    ensures r.Err? <==> f.typ !in SizeTable
    ensures r.Err? ==> r.exc == KeyError
    ensures r.Ok? ==> r.value in {1, 2, 4, 8}
    ensures IsVariable(f) ==> r == Ok(2)
  {
    if f.typ in SizeTable then Ok(SizeTable[f.typ]) else Err(KeyError)
  }

  /** `IMCMessage.is_variable()`: some field is variable. */
  function AnyVariable(fs: seq<Field>): (r: bool)
    ensures r <==> exists i :: 0 <= i < |fs| && IsVariable(fs[i])
  {
    if |fs| == 0 then false
    else
      assert forall i :: 0 <= i < |fs| - 1 ==> fs[1..][i] == fs[i + 1];
      IsVariable(fs[0]) || AnyVariable(fs[1..])
  }

  /** `IMCField.is_enum()`, `is_bitfield()` and `is_inline_enum()` */
  predicate IsEnumField(f: Field) { f.unit == Some("Enumerated") }
  predicate IsBitfieldField(f: Field) { f.unit == Some("Bitfield") }
  predicate IsInlineEnum(f: Field) { |f.values| > 0 }

  /** `IMCField.get_inline_enum()`: an enumeration built from the field's
      own values, or nothing when it has none. */
  function GetInlineEnum(f: Field): (r: Option<Enum>)
    ensures r.Some? <==> IsInlineEnum(f)
    ensures r.Some? ==> && r.value.isInline && r.value.values == f.values
                        && r.value.name == f.name && r.value.abbrev == f.abbrev
                        && r.value.prefix == f.prefix && r.value.unit == f.unit
                        && r.value.typ == Some(f.typ)
  {
    if |f.values| > 0 then Some(Enum(f.name, f.abbrev, f.prefix, f.unit, Some(f.typ), f.values, true))
    else None
  }

  /** Equal once both are lower-cased, ASCII letter by letter. */
  predicate SameIgnoringCase(a: string, b: string) {
    |a| == |b| && forall i :: 0 <= i < |a| ==> Lower(a[i]) == Lower(b[i])
  }

  /** `s.lower() == "bitfield"` is a case-insensitive comparison. */
  lemma LowerIsBitfield(s: string)
    ensures LowerStr(s) == "bitfield" <==> SameIgnoringCase(s, "bitfield")
  {
    var w := "bitfield";
    assert forall i :: 0 <= i < |w| ==> Lower(w[i]) == w[i];
    if SameIgnoringCase(s, w) {
      assert forall i :: 0 <= i < |w| ==> LowerStr(s)[i] == w[i];
    }
  }

  /** `IMCEnum.is_bitfield()`: `None` when the unit is unset or empty,
      otherwise whether it reads `bitfield` in any case. */
  function EnumIsBitfield(e: Enum): (r: Option<bool>)
    ensures r.None? <==> !Truthy(e.unit)
    ensures Truthy(e.unit) ==> (r == Some(true) <==> SameIgnoringCase(e.unit.value, "bitfield"))
    ensures e.unit == Some("Bitfield") ==> r == Some(true)
    ensures e.unit == Some("bitfield") ==> r == Some(true)
    ensures e.unit == Some("Enumerated") ==> r == Some(false)
  {
    if Truthy(e.unit) then
      LowerIsBitfield(e.unit.value);
      Some(LowerStr(e.unit.value) == "bitfield")
    else None
  }

  /** The inline enumeration of an enumerated or bitfield field is a
      bitfield exactly when the field is. */
  lemma InlineEnumKind(f: Field)
    requires IsInlineEnum(f) && (IsEnumField(f) || IsBitfieldField(f))
    ensures EnumIsBitfield(GetInlineEnum(f).value) == Some(IsBitfieldField(f))
  {
  }

  /** The bitfields section of `parse`: every definition gets unit
      `Bitfield`. */
  function MarkBitfields(es: seq<Enum>): (r: seq<Enum>)
    ensures |r| == |es|
    ensures forall i :: 0 <= i < |es| ==> r[i].(unit := es[i].unit) == es[i]
    ensures forall i :: 0 <= i < |es| ==> EnumIsBitfield(r[i]) == Some(true)
  {
    seq(|es|, i requires 0 <= i < |es| => es[i].(unit := Some("Bitfield")))
  }

  // ---------------------------------------------------------------------
  // sorting by message dependencies
  // ---------------------------------------------------------------------

  /** `[x.message_type for x in m.fields if x.message_type]` */
  function DepsOf(m: Msg): (r: seq<string>)
    ensures forall x :: x in r <==> exists i :: 0 <= i < |m.fields| && Truthy(m.fields[i].messageType)
                                               && m.fields[i].messageType.value == x
  {
    FieldDeps(m.fields)
  }

  function FieldDeps(fs: seq<Field>): (r: seq<string>)
    ensures forall x :: x in r <==> exists i :: 0 <= i < |fs| && Truthy(fs[i].messageType)
                                               && fs[i].messageType.value == x
  {
    if |fs| == 0 then []
    else
      assert forall i :: 0 <= i < |fs| - 1 ==> fs[1..][i] == fs[i + 1];
      (if Truthy(fs[0].messageType) then [fs[0].messageType.value] else []) + FieldDeps(fs[1..])
  }

  /** A message with an inline message or message-list field of a named
      type: it goes into `msg_deps`. */
  predicate HasDeps(m: Msg) {
    |DepsOf(m)| > 0
  }

  /** `m` refers to some message of `s` (by abbreviation). */
  predicate Waits(m: Msg, s: seq<Msg>) {
    exists n :: n in s && n.abbrev in DepsOf(m)
  }

  /** The messages in order that keep (or lose) `HasDeps`. */
  function Dependents(ms: seq<Msg>, keep: bool): (r: seq<Msg>)
    ensures forall m :: m in r <==> m in ms && HasDeps(m) == keep
    ensures forall i :: 0 <= i < |r| ==> HasDeps(r[i]) == keep
  {
    if |ms| == 0 then []
    else (if HasDeps(ms[0]) == keep then [ms[0]] else []) + Dependents(ms[1..], keep)
  }

  lemma {:induction false} DependentsSplit(ms: seq<Msg>)
    ensures multiset(Dependents(ms, false)) + multiset(Dependents(ms, true)) == multiset(ms)
  {
    if |ms| > 0 {
      DependentsSplit(ms[1..]);
      assert ms == [ms[0]] + ms[1..];
    }
  }

  /** The first pending message none of whose dependencies is pending:
      the `for k in keys` scan, which stops at the first one it pops. */
  function FirstReady(pending: seq<Msg>): (r: Option<nat>)
    ensures r.Some? ==> r.value < |pending| && !Waits(pending[r.value], pending)
    ensures r.Some? ==> forall j :: 0 <= j < r.value ==> Waits(pending[j], pending)
    ensures r.None? ==> forall j :: 0 <= j < |pending| ==> Waits(pending[j], pending)
  {
    FirstReadyFrom(pending, 0)
  }

  function FirstReadyFrom(pending: seq<Msg>, k: nat): (r: Option<nat>)
    requires k <= |pending|
    ensures r.Some? ==> k <= r.value < |pending| && !Waits(pending[r.value], pending)
    ensures r.Some? ==> forall j :: k <= j < r.value ==> Waits(pending[j], pending)
    ensures r.None? ==> forall j :: k <= j < |pending| ==> Waits(pending[j], pending)
    decreases |pending| - k
  {
    if k == |pending| then None
    else if !Waits(pending[k], pending) then Some(k)
    else FirstReadyFrom(pending, k + 1)
  }

  /** How `sortby_message_dependencies` ends: with the sorted messages,
      with the RuntimeError of its guard, or never, because the `while`
      loop goes round with `stuck` pending and nothing to pop. */
  datatype Sorting = Sorted(msgs: seq<Msg>) | Failed | Spins(stuck: seq<Msg>)

  /** The `while msg_deps` loop with `pending` left in `msg_deps` (in
      insertion order) and `out` appended so far. `fixed` selects whether
      `last_size` is updated to the number of pending keys each round: the
      code as written never updates it. */
  function Rounds(pending: seq<Msg>, out: seq<Msg>, lastSize: int, fixed: bool): Sorting
    decreases |pending|, if lastSize == |pending| then 0 else 1
  {
    if |pending| == 0 then Sorted(out)
    else if |pending| == lastSize then Failed
    else
      var last' := if fixed then |pending| else lastSize;
      match FirstReady(pending)
      case Some(i) => Rounds(pending[..i] + pending[i + 1..], out + [pending[i]], last', fixed)
      case None =>
        // the next round starts in the same state as this one
        if last' == lastSize then Spins(pending) else Rounds(pending, out, last', fixed)
  }

  /** Messages with distinct abbreviations, as `validate` guarantees of
      every parsed definition. */
  predicate DistinctAbbrevs(ms: seq<Msg>) {
    forall i, j :: 0 <= i < j < |ms| ==> ms[i].abbrev != ms[j].abbrev
  }

  /** `sortby_message_dependencies()` as written: the messages without
      dependencies first, then the others as they become ready. */
  function SortByDeps(ms: seq<Msg>): Sorting
    requires DistinctAbbrevs(ms)
  {
    Rounds(Dependents(ms, true), Dependents(ms, false), -1, false)
  }

  /** The same with `last_size` kept up to date, so that a round that pops
      nothing raises RuntimeError. */
  function SortByDepsFixed(ms: seq<Msg>): Sorting
    requires DistinctAbbrevs(ms)
  {
    Rounds(Dependents(ms, true), Dependents(ms, false), -1, true)
  }

  /** The guard never fires in the code as written. */
  lemma {:induction false} RoundsNeverFail(pending: seq<Msg>, out: seq<Msg>)
    ensures !Rounds(pending, out, -1, false).Failed?
    decreases |pending|
  {
    if |pending| > 0 {
      match FirstReady(pending) {
        case Some(i) => RoundsNeverFail(pending[..i] + pending[i + 1..], out + [pending[i]]);
        case None =>
      }
    }
  }

  /** A non-empty set of messages each of which refers to one of them: no
      member can ever be popped. */
  predicate Circular(s: seq<Msg>) {
    |s| > 0 && forall m :: m in s ==> Waits(m, s)
  }

  lemma WaitsMore(m: Msg, s: seq<Msg>, t: seq<Msg>)
    requires Waits(m, s) && forall n :: n in s ==> n in t
    ensures Waits(m, t)
  {
  }

  /** `r` is `out` followed by the pending messages, each one placed after
      every pending message it refers to. */
  predicate SortsAfter(out: seq<Msg>, pending: seq<Msg>, r: seq<Msg>) {
    && |r| == |out| + |pending| && r[..|out|] == out
    && multiset(r[|out|..]) == multiset(pending)
    && forall j :: |out| <= j < |r| ==> !Waits(r[j], r[j..])
  }

  /** Popping a ready message keeps `SortsAfter`. */
  lemma PopReady(out: seq<Msg>, pending: seq<Msg>, i: nat, r: seq<Msg>)
    requires i < |pending| && !Waits(pending[i], pending)
    requires SortsAfter(out + [pending[i]], pending[..i] + pending[i + 1..], r)
    ensures SortsAfter(out, pending, r)
  {
    var o' := out + [pending[i]];
    assert pending == pending[..i] + [pending[i]] + pending[i + 1..];
    assert r[..|out|] == o'[..|out|];
    assert r[|out|..] == [pending[i]] + r[|o'|..];
    assert multiset(r[|out|..]) == multiset(pending);
    forall n | n in r[|out|..] ensures n in pending {
      assert n in multiset(r[|out|..]);
    }
    if Waits(r[|out|], r[|out|..]) {
      WaitsMore(r[|out|], r[|out|..], pending);
    }
  }

  /** When the rounds sort, they extend `out` by the pending messages in
      dependency order. */
  lemma {:induction false} RoundsSorted(pending: seq<Msg>, out: seq<Msg>, lastSize: int, fixed: bool)
    ensures var s := Rounds(pending, out, lastSize, fixed);
            s.Sorted? ==> SortsAfter(out, pending, s.msgs)
    decreases |pending|, if lastSize == |pending| then 0 else 1
  {
    if |pending| == 0 {
      assert out[..|out|] == out && out[|out|..] == [];
    } else if |pending| != lastSize {
      var last' := if fixed then |pending| else lastSize;
      match FirstReady(pending) {
        case Some(i) =>
          RoundsSorted(pending[..i] + pending[i + 1..], out + [pending[i]], last', fixed);
          var s := Rounds(pending, out, lastSize, fixed);
          if s.Sorted? {
            PopReady(out, pending, i, s.msgs);
          }
        case None =>
          if last' != lastSize {
            RoundsSorted(pending, out, last', fixed);
          }
      }
    }
  }

  /** When the rounds spin, a circular set of pending messages is left. */
  lemma {:induction false} RoundsSpin(pending: seq<Msg>, out: seq<Msg>, lastSize: int, fixed: bool)
    ensures var s := Rounds(pending, out, lastSize, fixed);
            s.Spins? ==> Circular(s.stuck) && forall m :: m in s.stuck ==> m in pending
    decreases |pending|, if lastSize == |pending| then 0 else 1
  {
    if |pending| > 0 && |pending| != lastSize {
      var last' := if fixed then |pending| else lastSize;
      match FirstReady(pending) {
        case Some(i) =>
          RoundsSpin(pending[..i] + pending[i + 1..], out + [pending[i]], last', fixed);
          RemoveOne(pending, i);
        case None =>
          if last' != lastSize {
            RoundsSpin(pending, out, last', fixed);
          } else {
            NoneReadyCircular(pending);
          }
      }
    }
  }

  /** When no pending message is ready, they form a circular set. */
  lemma NoneReadyCircular(pending: seq<Msg>)
    requires |pending| > 0 && FirstReady(pending).None?
    ensures Circular(pending)
  {
    forall m | m in pending ensures Waits(m, pending) {
      var j :| 0 <= j < |pending| && pending[j] == m;
    }
  }

  /** Removing a message the set does not hold leaves the set among the
      rest. */
  lemma StillAmong(pending: seq<Msg>, i: nat, s: seq<Msg>)
    requires i < |pending| && pending[i] !in s
    requires forall m :: m in s ==> m in pending
    ensures forall m :: m in s ==> m in pending[..i] + pending[i + 1..]
  {
    var rest := pending[..i] + pending[i + 1..];
    forall m | m in s ensures m in rest {
      var k :| 0 <= k < |pending| && pending[k] == m;
      if k < i {
        assert rest[k] == m;
      } else {
        assert rest[k - 1] == m;
      }
    }
  }

  /** A message that refers to no pending message is outside every
      circular set among them. */
  lemma ReadyNotCircular(m: Msg, s: seq<Msg>, pending: seq<Msg>)
    requires Circular(s) && forall n :: n in s ==> n in pending
    requires !Waits(m, pending)
    ensures m !in s
  {
    if m in s {
      WaitsMore(m, s, pending);
    }
  }

  /** Removing one message keeps the others. */
  lemma RemoveOne(pending: seq<Msg>, i: nat)
    requires i < |pending|
    ensures forall m :: m in pending[..i] + pending[i + 1..] ==> m in pending
  {
  }

  /** A circular set among the pending messages is never popped: the
      rounds cannot sort. */
  lemma {:induction false} CircularBlocks(pending: seq<Msg>, out: seq<Msg>, lastSize: int, fixed: bool, s: seq<Msg>)
    requires Circular(s) && forall m :: m in s ==> m in pending
    ensures !Rounds(pending, out, lastSize, fixed).Sorted?
    decreases |pending|, if lastSize == |pending| then 0 else 1
  {
    assert s[0] in pending;
    if |pending| != lastSize {
      var last' := if fixed then |pending| else lastSize;
      match FirstReady(pending) {
        case Some(i) =>
          ReadyNotCircular(pending[i], s, pending);
          StillAmong(pending, i, s);
          CircularBlocks(pending[..i] + pending[i + 1..], out + [pending[i]], last', fixed, s);
        case None =>
          if last' != lastSize {
            CircularBlocks(pending, out, last', fixed, s);
            assert Rounds(pending, out, lastSize, fixed) == Rounds(pending, out, last', fixed);
          }
      }
    }
  }

  /** As written, the sort either sorts or spins for ever, and it spins
      exactly when some messages depend on each other in a circle (a
      message depending on itself included). When it sorts, the result is
      a permutation of the messages, those without dependencies come first
      in their original order, and every other message comes after the
      messages it refers to. */
  lemma SortByDepsResult(ms: seq<Msg>)
    requires DistinctAbbrevs(ms)
    ensures var s := SortByDeps(ms);
            && !s.Failed?
            && (s.Spins? ==> Circular(s.stuck) && forall m :: m in s.stuck ==> m in ms)
            && (s.Sorted? ==> && multiset(s.msgs) == multiset(ms)
                              && |Dependents(ms, false)| <= |s.msgs|
                              && s.msgs[..|Dependents(ms, false)|] == Dependents(ms, false)
                              && forall j :: |Dependents(ms, false)| <= j < |s.msgs| ==>
                                   HasDeps(s.msgs[j]) && !Waits(s.msgs[j], s.msgs[j..]))
  {
    var free := Dependents(ms, false);
    var deps := Dependents(ms, true);
    RoundsNeverFail(deps, free);
    RoundsSpin(deps, free, -1, false);
    var s := SortByDeps(ms);
    if s.Sorted? {
      RoundsSorted(deps, free, -1, false);
      SortedShape(ms, s.msgs);
    }
  }

  /** The free messages followed by the dependent ones, each placed after
      what it refers to, make a permutation of all the messages. */
  lemma SortedShape(ms: seq<Msg>, r: seq<Msg>)
    requires SortsAfter(Dependents(ms, false), Dependents(ms, true), r)
    ensures multiset(r) == multiset(ms)
    ensures |Dependents(ms, false)| <= |r| && r[..|Dependents(ms, false)|] == Dependents(ms, false)
    ensures forall j :: |Dependents(ms, false)| <= j < |r| ==> HasDeps(r[j]) && !Waits(r[j], r[j..])
  {
    var free := Dependents(ms, false);
    DependentsSplit(ms);
    assert r == r[..|free|] + r[|free|..];
    forall j | |free| <= j < |r| ensures HasDeps(r[j]) {
      assert r[j] in multiset(r[|free|..]);
    }
  }

  /** Conversely, a circle of dependencies makes the sort spin. */
  lemma SortByDepsSpins(ms: seq<Msg>, s: seq<Msg>)
    requires DistinctAbbrevs(ms)
    requires Circular(s) && forall m :: m in s ==> m in ms
    ensures SortByDeps(ms).Spins?
  {
    var deps := Dependents(ms, true);
    forall m | m in s ensures m in deps {
      assert Waits(m, s);
    }
    CircularBlocks(deps, Dependents(ms, false), -1, false, s);
    RoundsNeverFail(deps, Dependents(ms, false));
  }

  /** With `last_size` updated, the rounds agree with the code as written
      except that spinning becomes the RuntimeError. */
  lemma {:induction false} RoundsFixed(pending: seq<Msg>, out: seq<Msg>, lastSize: int)
    requires lastSize != |pending|
    ensures var w := Rounds(pending, out, -1, false);
            Rounds(pending, out, lastSize, true) == if w.Spins? then Failed else w
    decreases |pending|
  {
    if |pending| > 0 {
      match FirstReady(pending) {
        case Some(i) => RoundsFixed(pending[..i] + pending[i + 1..], out + [pending[i]], |pending|);
        case None =>
      }
    }
  }

  /** The corrected sort raises RuntimeError exactly when there is a
      circle of dependencies, and otherwise sorts as the code as written
      does. */
  lemma SortByDepsFixedResult(ms: seq<Msg>)
    requires DistinctAbbrevs(ms)
    ensures var w := SortByDeps(ms);
            && !SortByDepsFixed(ms).Spins?
            && (w.Sorted? ==> SortByDepsFixed(ms) == w)
            && (SortByDepsFixed(ms).Failed? <==> w.Spins?)
  {
    RoundsFixed(Dependents(ms, true), Dependents(ms, false), -1);
    RoundsNeverFail(Dependents(ms, true), Dependents(ms, false));
  }

  /** A message carrying an inline message of its own type. */
  const SelfRef := Msg("1", "Self", "Self", [Field("inner", "inner", "message", None, Some("Self"), None, None, [], None)], "Message")

  /** As written, a message that refers to itself makes the sort spin
      rather than raise; the corrected sort raises RuntimeError. */
  lemma SelfReferenceSpins()
    ensures SortByDeps([SelfRef]).Spins?
    ensures SortByDepsFixed([SelfRef]) == Failed
  {
    assert DepsOf(SelfRef) == ["Self"];
    assert Circular([SelfRef]) by {
      assert Waits(SelfRef, [SelfRef]);
    }
    SortByDepsSpins([SelfRef], [SelfRef]);
    SortByDepsFixedResult([SelfRef]);
  }
}
