/** The binding and stub generators of utils/generate_bindings.py
    (`IMCPybind` and `IMCPyi`): which messages and enumerations they emit,
    the names they give Python enumerations and values, how each field is
    bound, the MessageList instantiations, and the whitelist file. The
    C++ and stub text itself, and the files written, are not modelled. */
module Pybind {
  import opened Prelude
  import opened Strings
  import opened Schema

  // ---------------------------------------------------------------------
  // the whitelist
  // ---------------------------------------------------------------------

  /** `not self.whitelist or m.abbrev.lower() in self.whitelist`: an empty
      whitelist lets every message through. */
  predicate Listed(whitelist: seq<string>, abbrev: string) {
    |whitelist| == 0 || LowerStr(abbrev) in whitelist
  }

  /** The messages a generator emits, in the order it visits them. */
  function Selected(whitelist: seq<string>, ms: seq<Msg>): (r: seq<Msg>)
    ensures forall m :: m in r <==> m in ms && Listed(whitelist, m.abbrev)
    ensures |r| <= |ms|
  {
    if |ms| == 0 then []
    else (if Listed(whitelist, ms[0].abbrev) then [ms[0]] else []) + Selected(whitelist, ms[1..])
  }

  /** Without a whitelist every message is emitted, in order. */
  lemma {:induction false} SelectedAll(ms: seq<Msg>)
    ensures Selected([], ms) == ms
  {
    if |ms| > 0 {
      SelectedAll(ms[1..]);
      assert ms == [ms[0]] + ms[1..];
    }
  }

  /** Each message is emitted as often as it occurs, when listed. */
  lemma {:induction false} SelectedCount(whitelist: seq<string>, ms: seq<Msg>)
    ensures forall m :: multiset(Selected(whitelist, ms))[m]
                        == if Listed(whitelist, m.abbrev) then multiset(ms)[m] else 0
  {
    if |ms| > 0 {
      SelectedCount(whitelist, ms[1..]);
      assert ms == [ms[0]] + ms[1..];
    }
  }

  /** The stub generator works on the messages sorted by dependency, the
      binding generator on them as parsed: whenever the sort succeeds,
      both emit the same message classes. The stub generator calls the
      sort as written; it is stated here for the corrected sort, which
      gives the same order whenever the one as written ends
      (`SortByDepsFixedResult`), and the one as written never returns
      otherwise. */
  lemma StubsMatchBindings(whitelist: seq<string>, ms: seq<Msg>)
    requires DistinctAbbrevs(ms) && SortByDepsFixed(ms).Sorted?
    ensures multiset(Selected(whitelist, SortByDepsFixed(ms).msgs)) == multiset(Selected(whitelist, ms))
  {
    SortByDepsFixedResult(ms);
    SortByDepsResult(ms);
    SelectedPermutes(whitelist, SortByDepsFixed(ms).msgs, ms);
  }

  lemma SelectedPermutes(whitelist: seq<string>, a: seq<Msg>, b: seq<Msg>)
    requires multiset(a) == multiset(b)
    ensures multiset(Selected(whitelist, a)) == multiset(Selected(whitelist, b))
  {
    SelectedCount(whitelist, a);
    SelectedCount(whitelist, b);
  }

  /** A whitelist keeps abbreviations distinct. */
  lemma {:induction false} SelectedDistinct(whitelist: seq<string>, ms: seq<Msg>)
    requires DistinctAbbrevs(ms)
    ensures DistinctAbbrevs(Selected(whitelist, ms))
  {
    if |ms| > 0 {
      SelectedDistinct(whitelist, ms[1..]);
      var rest := Selected(whitelist, ms[1..]);
      forall j | 0 <= j < |rest| ensures rest[j].abbrev != ms[0].abbrev {
        var k :| 0 <= k < |ms[1..]| && ms[1..][k] == rest[j];
        assert ms[k + 1] == rest[j];
      }
    }
  }

  /** `fnames` in `write_generated`: the three fixed entry points, then one
      per emitted message. Each gets one forward declaration and one call. */
  function EntryPoints(whitelist: seq<string>, ms: seq<Msg>): (r: seq<string>)
    ensures |r| == 3 + |Selected(whitelist, ms)|
  {
    var sel := Selected(whitelist, ms);
    ["Enumerations", "SuperTypes", "Bitfields"] + seq(|sel|, k requires 0 <= k < |sel| => sel[k].abbrev)
  }

  /** Entry points are declared once each: with distinct abbreviations,
      none of which is a fixed entry point's name, no name repeats. */
  lemma EntryPointsDistinct(whitelist: seq<string>, ms: seq<Msg>)
    requires DistinctAbbrevs(ms)
    requires forall i :: 0 <= i < |ms| ==> ms[i].abbrev !in ["Enumerations", "SuperTypes", "Bitfields"]
    ensures var r := EntryPoints(whitelist, ms);
            forall i, j :: 0 <= i < j < |r| ==> r[i] != r[j]
  {
    SelectedDistinct(whitelist, ms);
    var sel := Selected(whitelist, ms);
    var r := EntryPoints(whitelist, ms);
    forall k | 0 <= k < |sel| ensures r[3 + k] == sel[k].abbrev && sel[k].abbrev !in ["Enumerations", "SuperTypes", "Bitfields"] {
      assert sel[k] in ms;
    }
  }

  // ---------------------------------------------------------------------
  // MessageList instantiations
  // ---------------------------------------------------------------------

  /** `set(msglst)`: the message type of every field that names one, of
      every message (whitelisted or not), and `Message`. */
  function MessageListTypes(ms: seq<Msg>): (r: set<string>)
    ensures forall x :: x in r <==> x == "Message" || exists i :: 0 <= i < |ms| && x in DepsOf(ms[i])
  {
    if |ms| == 0 then {"Message"}
    else
      assert forall i :: 0 <= i < |ms| - 1 ==> ms[1..][i] == ms[i + 1];
      (set x | x in DepsOf(ms[0])) + MessageListTypes(ms[1..])
  }

  // ---------------------------------------------------------------------
  // enumerations
  // ---------------------------------------------------------------------

  /** The global enumerations emitted: all but `Boolean`. Bitfields are all
      emitted. */
  function EmittedEnums(es: seq<Enum>): (r: seq<Enum>)
    ensures forall e :: e in r <==> e in es && e.abbrev != "Boolean"
  {
    if |es| == 0 then []
    else (if es[0].abbrev != "Boolean" then [es[0]] else []) + EmittedEnums(es[1..])
  }

  /** The fields that carry an inline enumeration or bitfield. */
  function InlineEnumFields(fs: seq<Field>): (r: seq<Field>)
    ensures forall f :: f in r <==> f in fs && IsInlineEnum(f) && (IsEnumField(f) || IsBitfieldField(f))
  {
    if |fs| == 0 then []
    else
      var f := fs[0];
      (if IsInlineEnum(f) && (IsEnumField(f) || IsBitfieldField(f)) then [f] else []) + InlineEnumFields(fs[1..])
  }

  /** `'Bits' if e.is_bitfield() else 'Enum'` (an unset unit reads as
      false). */
  function Suffix(e: Enum): string {
    if EnumIsBitfield(e) == Some(true) then "Bits" else "Enum"
  }

  /** The Python name of an inline enumeration in the stub file: the name
      with underscores as word breaks, each word capitalised, the spaces
      dropped, and the suffix. */
  function StubName(e: Enum): (r: string)
    ensures ' ' !in r
    ensures |r| >= 4 && r[|r| - 4..] == Suffix(e)
  {
    RemoveChar(Capwords(ReplaceChar(e.name, '_', ' ')), ' ') + Suffix(e)
  }

  /** The same name in the bindings, with `_` in front when it would start
      with a digit. */
  function BindingName(e: Enum): (r: string)
    ensures |r| > 0 && !IsDigit(r[0])
    ensures r == StubName(e) <==> !IsDigit(StubName(e)[0])
    ensures r != StubName(e) ==> r == "_" + StubName(e)
  {
    var stub := StubName(e);
    if IsDigit(stub[0]) then "_" + stub else stub
  }

  /** The C++ name of the inline enumeration: its name without spaces and
      the suffix. */
  function CppName(e: Enum): (r: string)
    ensures ' ' !in r
    ensures |r| >= 4 && r[|r| - 4..] == Suffix(e)
  {
    RemoveChar(e.name, ' ') + Suffix(e)
  }

  /** The Python and C++ names of an inline enumeration of an enumerated
      or bitfield field end in `Bits` exactly when the field is a
      bitfield. */
  lemma InlineEnumNames(f: Field)
    requires f in InlineEnumFields([f])
    ensures var e := GetInlineEnum(f).value;
            && (BindingName(e)[|BindingName(e)| - 4..] == "Bits" <==> IsBitfieldField(f))
            && (StubName(e)[|StubName(e)| - 4..] == "Bits" <==> IsBitfieldField(f))
            && (CppName(e)[|CppName(e)| - 4..] == "Bits" <==> IsBitfieldField(f))
  {
    var e := GetInlineEnum(f).value;
    InlineEnumKind(f);
    var stub := StubName(e);
    if BindingName(e) != stub {
      assert BindingName(e)[|BindingName(e)| - 4..] == stub[|stub| - 4..];
    }
  }

  /** The Python name of an enumeration value: `_` in front of an
      abbreviation that starts with a digit. An empty abbreviation is an
      IndexError. */
  function ValueName(v: Value): (r: Result<string>)
    ensures r.Err? <==> |v.abbrev| == 0
    ensures r.Err? ==> r.exc == IndexError
    ensures r.Ok? ==> && |r.value| > 0 && !IsDigit(r.value[0]) && |r.value| >= |v.abbrev|
                      && r.value[|r.value| - |v.abbrev|..] == v.abbrev
                      && (r.value != v.abbrev <==> IsDigit(v.abbrev[0]))
  {
    if |v.abbrev| == 0 then Err(IndexError)
    else if IsDigit(v.abbrev[0]) then Ok("_" + v.abbrev)
    else Ok(v.abbrev)
  }

  // ---------------------------------------------------------------------
  // fields
  // ---------------------------------------------------------------------

  /** The type an inline message field holds: its message type, or
      `Message` when it names none. */
  function InlineType(f: Field): string {
    if Truthy(f.messageType) then f.messageType.value else "Message"
  }

  /** How the bindings expose a field. */
  datatype Binding = BytesProperty | InlineProperty(inlineType: string) | ReadWrite

  /** `rawdata` as a bytes property, an inline `message` as a property of
      its inline type, anything else as a plain read-write member. */
  function FieldBinding(f: Field): (r: Binding)
    ensures r.BytesProperty? <==> f.typ == "rawdata"
    ensures r.InlineProperty? <==> f.typ == "message"
    ensures r.InlineProperty? ==> r.inlineType == InlineType(f)
    ensures r.InlineProperty? && Truthy(f.messageType) ==> r.inlineType == f.messageType.value
    ensures r.InlineProperty? && !Truthy(f.messageType) ==> r.inlineType == "Message"
  {
    if f.typ == "rawdata" then BytesProperty
    else if f.typ == "message" then InlineProperty(InlineType(f))
    else ReadWrite
  }

  /** `imctype_pyi` */
  const PyiTable: map<string, string> := map[
    "int8_t" := "int", "uint8_t" := "int", "int16_t" := "int", "uint16_t" := "int",
    "int32_t" := "int", "uint32_t" := "int", "int64_t" := "int", "uint64_t" := "int",
    "fp32_t" := "float", "fp64_t" := "float",
    "rawdata" := "bytes", "plaintext" := "str", "message" := "Message", "message-list" := "MessageList"]

  /** The type a stub property declares. The table has no `vector`
      entry, so a vector field is a KeyError; every other sized type has
      one. An inline message has the type the bindings give it. */
  function PyiType(f: Field): (r: Result<string>)
    ensures r.Err? <==> f.typ !in PyiTable
    ensures r.Err? ==> r.exc == KeyError
    ensures f.typ in SizeTable ==> (r.Ok? <==> f.typ != "vector")
    ensures f.typ == "message-list" ==> r == Ok("MessageList[" + InlineType(f) + "]")
    ensures FieldBinding(f).InlineProperty? ==> r == Ok(FieldBinding(f).inlineType)
  {
    if f.typ == "message" then Ok(InlineType(f))
    else if f.typ == "message-list" then Ok("MessageList[" + InlineType(f) + "]")
    else if f.typ in PyiTable then Ok(PyiTable[f.typ])
    else Err(KeyError)
  }

  // ---------------------------------------------------------------------
  // the whitelist file
  // ---------------------------------------------------------------------

  /** A line of the whitelist file is kept when it is not blank and does
      not start with `#` (before stripping). */
  predicate KeptLine(line: string) {
    |Strip(line)| > 0 && !StartsWith(line, "#")
  }

  /** The entry a kept line gives: stripped and lower-cased. */
  function Entry(line: string): string {
    LowerStr(Strip(line))
  }

  /** The whitelist read from the file's lines (`readlines()`). */
  function ParseWhitelist(lines: seq<string>): (r: seq<string>)
    ensures |r| <= |lines|
    ensures forall i :: 0 <= i < |lines| && KeptLine(lines[i]) ==> Entry(lines[i]) in r
    ensures forall e :: e in r ==> exists i :: 0 <= i < |lines| && KeptLine(lines[i]) && Entry(lines[i]) == e
  {
    if |lines| == 0 then []
    else
      var rest := ParseWhitelist(lines[1..]);
      assert forall i :: 1 <= i < |lines| ==> lines[1..][i - 1] == lines[i];
      (if KeptLine(lines[0]) then [Entry(lines[0])] else []) + rest
  }

  lemma LowerSpace(c: char)
    ensures IsSpace(Lower(c)) <==> IsSpace(c)
    ensures !('A' <= Lower(c) <= 'Z')
  {
  }

  /** `StripRight` keeps a prefix. */
  lemma {:induction false} StripRightPrefix(s: string)
    ensures StripRight(s) == s[..|StripRight(s)|]
    decreases |s|
  {
    if |s| > 0 && IsSpace(s[|s| - 1]) {
      StripRightPrefix(s[..|s| - 1]);
    }
  }

  /** Non-empty, no whitespace at either end, no upper-case letter. */
  predicate WellShaped(e: string) {
    && |e| > 0 && !IsSpace(e[0]) && !IsSpace(e[|e| - 1])
    && forall k :: 0 <= k < |e| ==> !('A' <= e[k] <= 'Z')
  }

  /** The entry of a kept line is well shaped. */
  lemma EntryShape(line: string)
    requires KeptLine(line)
    ensures WellShaped(Entry(line))
  {
    var t := StripLeft(line);
    var s := Strip(line);
    var e := Entry(line);
    StripRightPrefix(t);
    assert s[0] == t[0];
    LowerSpace(s[0]);
    LowerSpace(s[|s| - 1]);
    forall k | 0 <= k < |e| ensures !('A' <= e[k] <= 'Z') {
      LowerSpace(s[k]);
    }
  }

  /** Every whitelist entry is non-empty, has no whitespace at either end
      and no upper-case letter, so it can match a lower-cased
      abbreviation. */
  lemma WhitelistEntries(lines: seq<string>)
    ensures forall e :: e in ParseWhitelist(lines) ==> WellShaped(e)
  {
    forall e | e in ParseWhitelist(lines)
      ensures WellShaped(e)
    {
      var i :| 0 <= i < |lines| && KeptLine(lines[i]) && Entry(lines[i]) == e;
      EntryShape(lines[i]);
    }
  }

  /** A line whose `#` is indented is not a comment: it is kept, `#`
      included, while a comment line and a blank line are dropped. */
  lemma IndentedHashKept()
    ensures ParseWhitelist(["#x\n", " #Ab\n", "\n"]) == ["#ab"]
  {
    assert StartsWith("#x\n", "#");
    assert Strip(" #Ab\n") == "#Ab";
    assert !StartsWith(" #Ab\n", "#");
    assert LowerStr("#Ab") == "#ab";
    assert Strip("\n") == "";
  }
}
