/** The DUNE-based binding generator (generate_bindings.py): the C++ type
    of each field, the base class of each message, the enumeration value
    names, which messages get a binding function, the order of the entry
    points and the MessageList instantiations. The dependency order of the
    messages comes from DUNE's own generator utilities and is an input;
    the C++ text and the files written are not modelled. */
module DuneGen {
  import opened Prelude
  import opened Strings
  import opened Schema
  import Pybind

  // ---------------------------------------------------------------------
  // C++ field types
  // ---------------------------------------------------------------------

  /** `field_node.get('message-type', 'Message')`: the attribute when it
      is present, even when it is empty. */
  function TemplateArg(f: Field): string {
    if f.messageType.Some? then f.messageType.value else "Message"
  }

  /** `get_cxx_type`: the C++ type DUNE declares for a field. */
  function CxxType(f: Field): string {
    if f.typ == "plaintext" then "std::string"
    else if f.typ == "rawdata" then "std::vector<char>"
    else if f.typ == "message" then "InlineMessage<" + TemplateArg(f) + ">"
    else if f.typ == "message-list" then "MessageList<" + TemplateArg(f) + ">"
    else f.typ
  }

  /** The inline message type DUNE declares is the one the other binding
      generator and its stubs expose, except for a present but empty
      `message-type` attribute. */
  lemma CxxTypeMatchesPybind(f: Field)
    requires f.messageType != Some("")
    ensures f.typ == "message" ==> CxxType(f) == "InlineMessage<" + Pybind.InlineType(f) + ">"
                                   && Pybind.FieldBinding(f) == Pybind.InlineProperty(Pybind.InlineType(f))
    ensures f.typ == "message-list" ==> CxxType(f) == "MessageList<" + Pybind.InlineType(f) + ">"
                                        && Pybind.PyiType(f) == Ok("MessageList[" + Pybind.InlineType(f) + "]")
  {
  }

  /** Outside inline messages the two generators agree too: a string is
      `std::string` in C++ and `str` in the stubs, raw data a
      `std::vector<char>` and a bytes property, and each number type keeps
      its IMC name in C++ and is an `int` or a `float` in the stubs. */
  lemma CxxScalarMatchesPybind(f: Field)
    ensures f.typ == "plaintext" ==> CxxType(f) == "std::string" && Pybind.PyiType(f) == Ok("str")
    ensures f.typ == "rawdata" ==> CxxType(f) == "std::vector<char>" && Pybind.PyiType(f) == Ok("bytes")
                                   && Pybind.FieldBinding(f) == Pybind.BytesProperty
    ensures f.typ in SizeTable && f.typ !in VariableTypes ==>
              CxxType(f) == f.typ && (Pybind.PyiType(f) == Ok("int") || Pybind.PyiType(f) == Ok("float"))
  {
  }

  /** An empty `message-type` attribute: DUNE's type names an empty
      template argument, the other generator falls back to `Message`. */
  lemma EmptyMessageTypeDiffers()
    ensures var f := Field("m", "m", "message", None, Some(""), None, None, [], None);
            CxxType(f) == "InlineMessage<>" && Pybind.InlineType(f) == "Message"
  {
  }

  // ---------------------------------------------------------------------
  // base classes
  // ---------------------------------------------------------------------

  /** The first message group listing the message, in document order. */
  function FirstListing(abbrev: string, groups: seq<MessageGroup>): (r: Option<nat>)
    ensures r.Some? ==> && r.value < |groups| && abbrev in groups[r.value].1
                        && forall j :: 0 <= j < r.value ==> abbrev !in groups[j].1
    ensures r.None? ==> forall j :: 0 <= j < |groups| ==> abbrev !in groups[j].1
  {
    if |groups| == 0 then None
    else if abbrev in groups[0].1 then Some(0)
    else match FirstListing(abbrev, groups[1..])
         case None => None
         case Some(k) => Some(k + 1)
  }

  /** `base[0]`: the supertype a message's class derives from. */
  function BaseClass(abbrev: string, groups: seq<MessageGroup>): (r: string)
    ensures (forall j :: 0 <= j < |groups| ==> abbrev !in groups[j].1) ==> r == "Message"
    ensures (exists j :: 0 <= j < |groups| && abbrev in groups[j].1) ==>
              exists k :: 0 <= k < |groups| && abbrev in groups[k].1 && r == groups[k].0
                          && forall j :: 0 <= j < k ==> abbrev !in groups[j].1
  {
    match FirstListing(abbrev, groups)
    case None => "Message"
    case Some(k) => groups[k].0
  }

  /** A message listed by at most one group gets the same supertype here
      as in the schema parser, where the last listing group wins. */
  lemma BaseMatchesParser(abbrev: string, groups: seq<MessageGroup>)
    requires forall i, j :: 0 <= i < j < |groups| && abbrev in groups[i].1 ==> abbrev !in groups[j].1
    ensures BaseClass(abbrev, groups) == ParentFrom(abbrev, groups, "Message")
  {
    ParentIsLastListing(abbrev, groups, "Message");
    match FirstListing(abbrev, groups) {
      case None =>
        LastListingNone(abbrev, groups);
      case Some(k) =>
        LastListingIs(abbrev, groups, k);
    }
  }

  /** A message in two groups: DUNE's class derives from the first, the
      parser's from the last. */
  lemma BaseDiffersFromParser()
    ensures var groups: seq<MessageGroup> := [("A", ["M"]), ("B", ["M"])];
            BaseClass("M", groups) == "A" && ParentFrom("M", groups, "Message") == "B"
  {
    var groups: seq<MessageGroup> := [("A", ["M"]), ("B", ["M"])];
    assert "M" in groups[0].1;
    assert "M" in groups[1].1;
  }

  // ---------------------------------------------------------------------
  // enumeration values
  // ---------------------------------------------------------------------

  /** `prefix + '_' + abbrev` for each value. A missing prefix is `None`
      in Python, and the concatenation raises TypeError at the first
      value; with no values nothing is concatenated. */
  function ValueNames(prefix: Option<string>, vs: seq<Value>): (r: Result<seq<string>>)
    ensures r.Err? <==> prefix.None? && |vs| > 0
    ensures r.Err? ==> r.exc == TypeError
    ensures r.Ok? ==> |r.value| == |vs|
    ensures r.Ok? && |vs| > 0 ==> prefix.Some? && forall i :: 0 <= i < |vs| ==> r.value[i] == prefix.value + "_" + vs[i].abbrev
  {
    if |vs| == 0 then Ok([])
    else if prefix.None? then Err(TypeError)
    else Ok(seq(|vs|, i requires 0 <= i < |vs| => prefix.value + "_" + vs[i].abbrev))
  }

  /** The value's abbreviation is what follows the prefix and `_`. */
  lemma ValueNameSuffix(p: string, a: string)
    ensures (p + "_" + a)[..|p|] == p && (p + "_" + a)[|p| + 1..] == a
  {
    assert (p + "_" + a)[|p| + 1..] == a;
  }

  /** Distinct abbreviations give distinct C++ identifiers. */
  lemma ValueNamesDistinct(p: string, vs: seq<Value>)
    requires forall i, j :: 0 <= i < j < |vs| ==> vs[i].abbrev != vs[j].abbrev
    ensures ValueNames(Some(p), vs).Ok?
    ensures var r := ValueNames(Some(p), vs).value;
            forall i, j :: 0 <= i < j < |r| ==> r[i] != r[j]
  {
    var r := ValueNames(Some(p), vs).value;
    forall i, j | 0 <= i < j < |r| ensures r[i] != r[j] {
      ValueNameSuffix(p, vs[i].abbrev);
      ValueNameSuffix(p, vs[j].abbrev);
    }
  }

  /** A global enumeration or bitfield as bound: its abbreviation and the
      names of its values. */
  datatype EnumDecl = EnumDecl(abbrev: string, values: seq<string>)

  /** A global definition whose values cannot be named. */
  predicate Unnameable(e: Enum) {
    e.abbrev != "Boolean" && ValueNames(e.prefix, e.values).Err?
  }

  /** The enumerations (or bitfields) bound at module level: every
      definition but `Boolean`, in order; the first definition without a
      prefix but with values stops generation. */
  function GlobalEnums(es: seq<Enum>): (r: Result<seq<EnumDecl>>)
    ensures r.Err? <==> exists i :: 0 <= i < |es| && Unnameable(es[i])
    ensures r.Err? ==> r.exc == TypeError
  {
    if |es| == 0 then Ok([])
    else
      assert forall i :: 0 <= i < |es| - 1 ==> es[1..][i] == es[i + 1];
      var rest := GlobalEnums(es[1..]);
      if es[0].abbrev == "Boolean" then rest
      else match ValueNames(es[0].prefix, es[0].values)
           case Err(e) => Err(e)
           case Ok(names) =>
             if rest.Err? then rest
             else Ok([EnumDecl(es[0].abbrev, names)] + rest.value)
  }

  /** `d` binds the definition `e`, under its own name, with the names
      of its values. */
  predicate Declares(d: EnumDecl, e: Enum) {
    d.abbrev == e.abbrev != "Boolean" && Ok(d.values) == ValueNames(e.prefix, e.values)
  }

  /** Each definition but `Boolean` is bound, in order, with the names of
      its values. */
  lemma {:induction false} GlobalEnumsDeclared(es: seq<Enum>)
    requires GlobalEnums(es).Ok?
    ensures var r := GlobalEnums(es).value;
            var em := Pybind.EmittedEnums(es);
            |r| == |em| && forall i :: 0 <= i < |em| ==> Declares(r[i], em[i])
  {
    if |es| > 0 {
      GlobalEnumsDeclared(es[1..]);
      if es[0].abbrev != "Boolean" {
        var em' := Pybind.EmittedEnums(es[1..]);
        var em := Pybind.EmittedEnums(es);
        assert em == [es[0]] + em';
        var rest := GlobalEnums(es[1..]).value;
        var names := ValueNames(es[0].prefix, es[0].values).value;
        var r := [EnumDecl(es[0].abbrev, names)] + rest;
        assert GlobalEnums(es) == Ok(r);
        forall i | 0 <= i < |em| ensures Declares(r[i], em[i]) {
          if i > 0 {
            assert r[i] == rest[i - 1] && em[i] == em'[i - 1];
          }
        }
      }
    }
  }

  // ---------------------------------------------------------------------
  // inline enumerations and bitfields
  // ---------------------------------------------------------------------

  /** `field[@unit='Enumerated']` without `enum-def` (bits false), or
      `field[@unit='Bitfield']` without `bitfield-def` (bits true): an
      enumeration the message defines itself. */
  predicate DefinedInline(f: Field, bits: bool) {
    if bits then IsBitfieldField(f) && f.bitfieldDef.None?
    else IsEnumField(f) && f.enumDef.None?
  }

  /** The fields that get an inline enumeration (or bitfield) binding. */
  function InlineFields(fs: seq<Field>, bits: bool): (r: seq<Field>)
    ensures forall f :: f in r <==> f in fs && DefinedInline(f, bits)
  {
    if |fs| == 0 then []
    else (if DefinedInline(fs[0], bits) then [fs[0]] else []) + InlineFields(fs[1..], bits)
  }

  /** When an enumerated (bitfield) field lists values exactly when it
      names no global enumeration (bitfield), the fields DUNE binds inline are those the other
      generator treats as inline enumerations. */
  lemma InlineFieldsMatchPybind(fs: seq<Field>)
    requires forall f :: f in fs ==> && (IsEnumField(f) ==> (|f.values| > 0 <==> f.enumDef.None?))
                                      && (IsBitfieldField(f) ==> (|f.values| > 0 <==> f.bitfieldDef.None?))
    ensures forall f :: f in Pybind.InlineEnumFields(fs) <==> f in InlineFields(fs, false) || f in InlineFields(fs, true)
  {
  }

  /** The value names of each inline definition, in order; the first one
      without a prefix but with values stops generation. */
  function InlineValues(fs: seq<Field>): (r: Result<seq<seq<string>>>)
    ensures r.Err? <==> exists i :: 0 <= i < |fs| && ValueNames(fs[i].prefix, fs[i].values).Err?
    ensures r.Err? ==> r.exc == TypeError
    ensures r.Ok? ==> && |r.value| == |fs|
                      && forall i :: 0 <= i < |fs| ==> Ok(r.value[i]) == ValueNames(fs[i].prefix, fs[i].values)
  {
    if |fs| == 0 then Ok([])
    else
      assert forall i :: 0 <= i < |fs| - 1 ==> fs[1..][i] == fs[i + 1];
      match ValueNames(fs[0].prefix, fs[0].values)
      case Err(e) => Err(e)
      case Ok(names) =>
        var rest := InlineValues(fs[1..]);
        if rest.Err? then rest else Ok([names] + rest.value)
  }

  // ---------------------------------------------------------------------
  // message classes
  // ---------------------------------------------------------------------

  /** A message class as bound: its name, its base class, the C++ type
      of each field, and the value names of its inline enumerations and
      bitfields. */
  datatype ClassDecl = ClassDecl(
    name: string, base: string, members: seq<string>,
    enums: seq<seq<string>>, bitfields: seq<seq<string>>)

  /** `root.find("message[@abbrev='...']")`: the first message with that
      abbreviation. */
  function Lookup(ms: seq<Msg>, abbrev: string): (r: Option<Msg>)
    ensures r.None? <==> forall i :: 0 <= i < |ms| ==> ms[i].abbrev != abbrev
    ensures r.Some? ==> r.value in ms && r.value.abbrev == abbrev
  {
    if |ms| == 0 then None
    else if ms[0].abbrev == abbrev then Some(ms[0])
    else
      assert forall i :: 1 <= i < |ms| ==> ms[1..][i - 1] == ms[i];
      Lookup(ms[1..], abbrev)
  }

  /** The binding of one whitelisted message. */
  function ClassOf(groups: seq<MessageGroup>, m: Msg): (r: Result<ClassDecl>)
    ensures r.Err? <==> InlineValues(InlineFields(m.fields, false)).Err?
                        || InlineValues(InlineFields(m.fields, true)).Err?
    ensures r.Ok? ==> && r.value.name == m.abbrev
                      && r.value.base == BaseClass(m.abbrev, groups)
                      && |r.value.members| == |m.fields|
                      && (forall i :: 0 <= i < |m.fields| ==> r.value.members[i] == CxxType(m.fields[i]))
                      && |r.value.enums| == |InlineFields(m.fields, false)|
                      && |r.value.bitfields| == |InlineFields(m.fields, true)|
  {
    var members := seq(|m.fields|, i requires 0 <= i < |m.fields| => CxxType(m.fields[i]));
    match InlineValues(InlineFields(m.fields, false))
    case Err(e) => Err(e)
    case Ok(enums) =>
      match InlineValues(InlineFields(m.fields, true))
      case Err(e) => Err(e)
      case Ok(bits) => Ok(ClassDecl(m.abbrev, BaseClass(m.abbrev, groups), members, enums, bits))
  }

  /** The messages named by the dependency order, if all are defined. */
  function Resolve(ms: seq<Msg>, order: seq<string>): (r: Option<seq<Msg>>)
    ensures r.None? <==> exists i :: 0 <= i < |order| && Lookup(ms, order[i]).None?
    ensures r.Some? ==> && |r.value| == |order|
                        && forall i :: 0 <= i < |order| ==> Lookup(ms, order[i]) == Some(r.value[i])
  {
    if |order| == 0 then Some([])
    else
      assert forall i :: 0 <= i < |order| - 1 ==> order[1..][i] == order[i + 1];
      match Lookup(ms, order[0])
      case None => None
      case Some(m) =>
        var rest := Resolve(ms, order[1..]);
        if rest.None? then None else Some([m] + rest.value)
  }

  /** A class that fails to bind. */
  predicate ClassFails(whitelist: seq<string>, groups: seq<MessageGroup>, m: Msg) {
    Pybind.Listed(whitelist, m.abbrev) && ClassOf(groups, m).Err?
  }

  /** The message loop: each abbreviation of the dependency order is
      looked up (an undefined one is `None`, whose `.get` raises
      AttributeError), and each whitelisted message is bound. */
  function Classes(whitelist: seq<string>, groups: seq<MessageGroup>, ms: seq<Msg>, order: seq<string>): (r: Result<seq<ClassDecl>>)
    ensures r.Err? ==> r.exc in {AttributeError, TypeError}
    ensures r.Ok? ==> |r.value| <= |order|
  {
    if |order| == 0 then Ok([])
    else
      match Lookup(ms, order[0])
      case None => Err(AttributeError)
      case Some(m) =>
        if !Pybind.Listed(whitelist, m.abbrev) then Classes(whitelist, groups, ms, order[1..])
        else match ClassOf(groups, m)
             case Err(e) => Err(e)
             case Ok(c) =>
               var rest := Classes(whitelist, groups, ms, order[1..]);
               if rest.Err? then rest else Ok([c] + rest.value)
  }

  /** Some message of `rs` is whitelisted and fails to bind. */
  predicate AnyFails(whitelist: seq<string>, groups: seq<MessageGroup>, rs: seq<Msg>) {
    exists m :: m in rs && ClassFails(whitelist, groups, m)
  }

  /** An undefined abbreviation in the order stops the loop. */
  lemma {:induction false} ClassesMissing(whitelist: seq<string>, groups: seq<MessageGroup>, ms: seq<Msg>, order: seq<string>)
    requires Resolve(ms, order).None?
    ensures Classes(whitelist, groups, ms, order).Err?
  {
    if Lookup(ms, order[0]).Some? {
      ClassesMissing(whitelist, groups, ms, order[1..]);
    }
  }

  /** With every abbreviation defined, the loop fails exactly when a
      whitelisted message has an inline definition whose values cannot
      be named, and then with a TypeError. */
  lemma {:induction false} ClassesFail(whitelist: seq<string>, groups: seq<MessageGroup>, ms: seq<Msg>, order: seq<string>)
    requires Resolve(ms, order).Some?
    ensures var r := Classes(whitelist, groups, ms, order);
            && (r.Err? <==> AnyFails(whitelist, groups, Resolve(ms, order).value))
            && (r.Err? ==> r.exc == TypeError)
  {
    if |order| > 0 {
      ClassesFail(whitelist, groups, ms, order[1..]);
      var m := Lookup(ms, order[0]).value;
      var tail := Resolve(ms, order[1..]).value;
      assert Resolve(ms, order).value == [m] + tail;
      assert AnyFails(whitelist, groups, [m] + tail) <==> ClassFails(whitelist, groups, m) || AnyFails(whitelist, groups, tail) by {
        if AnyFails(whitelist, groups, tail) {
          var x :| x in tail && ClassFails(whitelist, groups, x);
          assert x in [m] + tail;
        }
        assert m in [m] + tail;
      }
    }
  }

  /** The whitelisted messages the loop finds, in order. */
  function Bound(whitelist: seq<string>, ms: seq<Msg>, order: seq<string>): (r: seq<Msg>)
    ensures forall m :: m in r ==> m in ms && Pybind.Listed(whitelist, m.abbrev)
  {
    if |order| == 0 then []
    else match Lookup(ms, order[0])
         case None => Bound(whitelist, ms, order[1..])
         case Some(m) => (if Pybind.Listed(whitelist, m.abbrev) then [m] else []) + Bound(whitelist, ms, order[1..])
  }

  /** With every abbreviation defined, the bound messages are the
      whitelisted ones of the order: the selection of the other
      generator. */
  lemma {:induction false} BoundIsSelected(whitelist: seq<string>, ms: seq<Msg>, order: seq<string>)
    requires Resolve(ms, order).Some?
    ensures Bound(whitelist, ms, order) == Pybind.Selected(whitelist, Resolve(ms, order).value)
  {
    if |order| > 0 {
      BoundIsSelected(whitelist, ms, order[1..]);
      var m := Lookup(ms, order[0]).value;
      var tail := Resolve(ms, order[1..]).value;
      assert Resolve(ms, order).value == [m] + tail;
      assert ([m] + tail)[1..] == tail;
    }
  }

  /** A whitelisted message found for the order is bound. */
  lemma {:induction false} BoundContains(whitelist: seq<string>, ms: seq<Msg>, order: seq<string>, i: nat)
    requires i < |order| && Lookup(ms, order[i]).Some? && Pybind.Listed(whitelist, order[i])
    ensures Lookup(ms, order[i]).value in Bound(whitelist, ms, order)
  {
    if i > 0 {
      BoundContains(whitelist, ms, order[1..], i - 1);
    }
  }

  /** `c` is the class of `m`: named after it, deriving from its first
      supertype. */
  predicate ClassFor(groups: seq<MessageGroup>, c: ClassDecl, m: Msg) {
    c.name == m.abbrev && c.base == BaseClass(m.abbrev, groups)
  }

  /** Each bound message gets a class, in order, named after it and
      deriving from its first supertype. */
  lemma {:induction false} ClassesAreBound(whitelist: seq<string>, groups: seq<MessageGroup>, ms: seq<Msg>, order: seq<string>)
    requires Classes(whitelist, groups, ms, order).Ok?
    ensures var cs := Classes(whitelist, groups, ms, order).value;
            var bound := Bound(whitelist, ms, order);
            |cs| == |bound| && forall i :: 0 <= i < |cs| ==> ClassFor(groups, cs[i], bound[i])
  {
    if |order| > 0 {
      ClassesAreBound(whitelist, groups, ms, order[1..]);
      var rest := Classes(whitelist, groups, ms, order[1..]).value;
      var tail := Bound(whitelist, ms, order[1..]);
      var m := Lookup(ms, order[0]).value;
      if Pybind.Listed(whitelist, m.abbrev) {
        var c := ClassOf(groups, m).value;
        var cs := [c] + rest;
        var bound := [m] + tail;
        assert Classes(whitelist, groups, ms, order) == Ok(cs);
        assert Bound(whitelist, ms, order) == bound;
        forall i | 0 <= i < |cs| ensures ClassFor(groups, cs[i], bound[i]) {
          if i > 0 { assert cs[i] == rest[i - 1] && bound[i] == tail[i - 1]; }
        }
      }
    }
  }

  // ---------------------------------------------------------------------
  // MessageList instantiations
  // ---------------------------------------------------------------------

  /** A `dict` from message type to the field recorded for it: insertion
      ordered, a later assignment replaces the value in place. */
  type Table = seq<(string, Field)>

  function TableKeys(t: Table): (r: seq<string>)
    ensures |r| == |t| && forall i :: 0 <= i < |t| ==> r[i] == t[i].0
  {
    if |t| == 0 then [] else [t[0].0] + TableKeys(t[1..])
  }

  /** `t.get(k)` */
  function Find(t: Table, k: string): (r: Option<Field>)
    ensures r.None? <==> k !in TableKeys(t)
  {
    if |t| == 0 then None
    else if t[0].0 == k then Some(t[0].1)
    else Find(t[1..], k)
  }

  /** `t[k] = v` */
  function Put(t: Table, k: string, v: Field): (r: Table)
    ensures |r| == if k in TableKeys(t) then |t| else |t| + 1
  {
    if |t| == 0 then [(k, v)]
    else if t[0].0 == k then [(k, v)] + t[1..]
    else [t[0]] + Put(t[1..], k, v)
  }

  predicate DistinctKeys(t: Table) {
    forall i, j :: 0 <= i < j < |t| ==> t[i].0 != t[j].0
  }

  /** An assignment changes the value of its own key and no other. */
  lemma {:induction false} PutFind(t: Table, k: string, v: Field, k': string)
    ensures Find(Put(t, k, v), k') == if k == k' then Some(v) else Find(t, k')
  {
    if |t| > 0 && t[0].0 != k {
      PutFind(t[1..], k, v, k');
      assert Put(t, k, v)[1..] == Put(t[1..], k, v);
    }
  }

  /** A new key goes last, a present key keeps its place. */
  lemma {:induction false} PutKeys(t: Table, k: string, v: Field)
    ensures TableKeys(Put(t, k, v)) == if k in TableKeys(t) then TableKeys(t) else TableKeys(t) + [k]
  {
    if |t| > 0 {
      if t[0].0 != k {
        PutKeys(t[1..], k, v);
        assert Put(t, k, v)[1..] == Put(t[1..], k, v);
        assert k in TableKeys(t) <==> k in TableKeys(t[1..]);
      } else {
        assert Put(t, k, v)[1..] == t[1..];
      }
    }
  }

  /** Keys never repeat. */
  lemma PutDistinct(t: Table, k: string, v: Field)
    requires DistinctKeys(t)
    ensures DistinctKeys(Put(t, k, v))
  {
    PutKeys(t, k, v);
    var r := Put(t, k, v);
    assert forall i :: 0 <= i < |r| ==> TableKeys(r)[i] == r[i].0;
    assert forall i :: 0 <= i < |t| ==> TableKeys(t)[i] == t[i].0;
  }

  /** The field records a MessageList of type `k`: `if fieldtype:`. */
  predicate Names(f: Field, k: string) {
    Truthy(f.messageType) && f.messageType.value == k
  }

  /** The fields of the given messages, in the order the loop visits them. */
  function AllFields(ms: seq<Msg>): (r: seq<Field>)
    ensures forall f :: f in r <==> exists i :: 0 <= i < |ms| && f in ms[i].fields
  {
    if |ms| == 0 then []
    else
      var init := ms[..|ms| - 1];
      assert forall i :: 0 <= i < |ms| - 1 ==> init[i] == ms[i];
      AllFields(init) + ms[|ms| - 1].fields
  }

  /** `messageLists` after the loop over the given fields. */
  function MessageLists(fs: seq<Field>): Table {
    if |fs| == 0 then []
    else
      var t := MessageLists(fs[..|fs| - 1]);
      var f := fs[|fs| - 1];
      if Truthy(f.messageType) then Put(t, f.messageType.value, f) else t
  }

  /** The last of the fields that names `k`, searching from the end. */
  function LastNaming(fs: seq<Field>, k: string): (r: Option<nat>)
    ensures r.Some? ==> r.value < |fs| && Names(fs[r.value], k)
                        && forall j :: r.value < j < |fs| ==> !Names(fs[j], k)
    ensures r.None? ==> forall j :: 0 <= j < |fs| ==> !Names(fs[j], k)
  {
    if |fs| == 0 then None
    else if Names(fs[|fs| - 1], k) then Some(|fs| - 1)
    else LastNaming(fs[..|fs| - 1], k)
  }

  /** `k` is among the message types of `a + b` when it is among
      those of `a` or of `b`. */
  lemma FieldDepsAppend(a: seq<Field>, b: seq<Field>, k: string)
    ensures k in FieldDeps(a + b) <==> k in FieldDeps(a) || k in FieldDeps(b)
  {
    var ab := a + b;
    if k in FieldDeps(a) {
      var i :| 0 <= i < |a| && Truthy(a[i].messageType) && a[i].messageType.value == k;
      assert ab[i] == a[i];
    }
    if k in FieldDeps(b) {
      var i :| 0 <= i < |b| && Truthy(b[i].messageType) && b[i].messageType.value == k;
      assert ab[|a| + i] == b[i];
    }
    if k in FieldDeps(ab) {
      var i :| 0 <= i < |ab| && Truthy(ab[i].messageType) && ab[i].messageType.value == k;
      if i < |a| { assert a[i] == ab[i]; } else { assert b[i - |a|] == ab[i]; }
    }
  }

  /** Keys never repeat. */
  lemma {:induction false} MessageListsDistinct(fs: seq<Field>)
    ensures DistinctKeys(MessageLists(fs))
  {
    if |fs| > 0 {
      MessageListsDistinct(fs[..|fs| - 1]);
      var f := fs[|fs| - 1];
      if Truthy(f.messageType) {
        PutDistinct(MessageLists(fs[..|fs| - 1]), f.messageType.value, f);
      }
    }
  }

  /** One instantiation per message type a field names. */
  lemma {:induction false} MessageListsKeys(fs: seq<Field>, k: string)
    ensures k in TableKeys(MessageLists(fs)) <==> k in FieldDeps(fs)
  {
    if |fs| > 0 {
      var init := fs[..|fs| - 1];
      var f := fs[|fs| - 1];
      MessageListsKeys(init, k);
      if Truthy(f.messageType) {
        PutKeys(MessageLists(init), f.messageType.value, f);
      }
      assert fs == init + [f];
      FieldDepsAppend(init, [f], k);
      assert k in FieldDeps([f]) <==> Names(f, k) by {
        assert [f][0] == f;
      }
    }
  }

  /** The field kept for a message type is the last to name it. */
  lemma {:induction false} MessageListsLast(fs: seq<Field>, k: string)
    ensures Find(MessageLists(fs), k) == match LastNaming(fs, k)
                                         case None => None
                                         case Some(i) => Some(fs[i])
  {
    if |fs| > 0 {
      var init := fs[..|fs| - 1];
      var f := fs[|fs| - 1];
      MessageListsLast(init, k);
      if Truthy(f.messageType) {
        PutFind(MessageLists(init), f.messageType.value, f, k);
      }
      if !Names(f, k) {
        match LastNaming(init, k) {
          case None =>
          case Some(i) => assert init[i] == fs[i];
        }
      }
    }
  }

  /** A type is instantiated exactly when a field of a bound message
      names it; unlike the other generator, messages left out by the
      whitelist contribute nothing and `Message` is not added. */
  lemma {:induction false} AllFieldsDeps(ms: seq<Msg>, k: string)
    ensures k in FieldDeps(AllFields(ms)) <==> exists i :: 0 <= i < |ms| && k in DepsOf(ms[i])
  {
    if |ms| > 0 {
      var init := ms[..|ms| - 1];
      var last := ms[|ms| - 1];
      AllFieldsDeps(init, k);
      FieldDepsAppend(AllFields(init), last.fields, k);
      if exists i :: 0 <= i < |ms| && k in DepsOf(ms[i]) {
        var i :| 0 <= i < |ms| && k in DepsOf(ms[i]);
        if i < |ms| - 1 { assert init[i] == ms[i]; }
      }
      if exists i :: 0 <= i < |init| && k in DepsOf(init[i]) {
        var i :| 0 <= i < |init| && k in DepsOf(init[i]);
        assert init[i] == ms[i];
      }
    }
  }

  /** With no whitelist and every message in the dependency order, the
      instantiations are the other generator's MessageList set without
      the extra `Message`. */
  lemma InstantiationsMatchPybind(ms: seq<Msg>, ordered: seq<Msg>, k: string)
    requires forall m :: m in ordered <==> m in ms
    ensures k in TableKeys(MessageLists(AllFields(Pybind.Selected([], ordered))))
            <==> k in Pybind.MessageListTypes(ms) && (k == "Message" ==> exists i :: 0 <= i < |ms| && k in DepsOf(ms[i]))
  {
    Pybind.SelectedAll(ordered);
    MessageListsKeys(AllFields(ordered), k);
    AllFieldsDeps(ordered, k);
    assert (exists i :: 0 <= i < |ordered| && k in DepsOf(ordered[i]))
           <==> (exists i :: 0 <= i < |ms| && k in DepsOf(ms[i])) by {
      if exists i :: 0 <= i < |ordered| && k in DepsOf(ordered[i]) {
        var i :| 0 <= i < |ordered| && k in DepsOf(ordered[i]);
        assert ordered[i] in ms;
      }
      if exists i :: 0 <= i < |ms| && k in DepsOf(ms[i]) {
        var i :| 0 <= i < |ms| && k in DepsOf(ms[i]);
        assert ms[i] in ordered;
      }
    }
  }

  // ---------------------------------------------------------------------
  // the whole run
  // ---------------------------------------------------------------------

  /** What a run binds: the supertypes, the global enumerations and
      bitfields, the message classes, the entry points (`fncnames`, each
      declared once and called once) and the MessageList instantiations
      (one per key of `messageLists`). */
  datatype Bindings = Bindings(
    superTypes: seq<string>, enums: seq<EnumDecl>, bitfields: seq<EnumDecl>,
    classes: seq<ClassDecl>, functions: seq<string>, messageLists: seq<string>)

  const FixedEntryPoints: seq<string> := ["pbSuperTypes", "pbEnumerations", "pbBitfields"]

  /** `generate_bindings`: enumerations, then bitfields, then the message
      loop; the first exception stops the run. */
  function Generate(whitelist: seq<string>, groups: seq<MessageGroup>, enums: seq<Enum>, bitfields: seq<Enum>,
                    ms: seq<Msg>, order: seq<string>): (r: Result<Bindings>)
    ensures r.Err? <==> GlobalEnums(enums).Err? || GlobalEnums(bitfields).Err?
                        || Classes(whitelist, groups, ms, order).Err?
    ensures r.Ok? ==> && |r.value.superTypes| == |groups|
                      && |r.value.functions| == 3 + |r.value.classes|
                      && r.value.functions[..3] == FixedEntryPoints
                      && forall i :: 0 <= i < |r.value.classes| ==> r.value.functions[3 + i] == "pb" + r.value.classes[i].name
  {
    match GlobalEnums(enums)
    case Err(e) => Err(e)
    case Ok(es) =>
      match GlobalEnums(bitfields)
      case Err(e) => Err(e)
      case Ok(bs) =>
        match Classes(whitelist, groups, ms, order)
        case Err(e) => Err(e)
        case Ok(cs) =>
          Ok(Bindings(
            seq(|groups|, i requires 0 <= i < |groups| => groups[i].0),
            es, bs, cs,
            FixedEntryPoints + seq(|cs|, i requires 0 <= i < |cs| => "pb" + cs[i].name),
            TableKeys(MessageLists(AllFields(Bound(whitelist, ms, order))))))
  }

  /** `pb` + a name identifies the name. */
  lemma PrefixedDistinct(a: string, b: string)
    requires a != b
    ensures "pb" + a != "pb" + b
  {
    assert ("pb" + a)[2..] == a && ("pb" + b)[2..] == b;
  }

  /** Every class is named after an abbreviation of the order. */
  lemma {:induction false} ClassNamesInOrder(whitelist: seq<string>, groups: seq<MessageGroup>, ms: seq<Msg>, order: seq<string>)
    requires Classes(whitelist, groups, ms, order).Ok?
    ensures var cs := Classes(whitelist, groups, ms, order).value;
            forall i :: 0 <= i < |cs| ==> cs[i].name in order
  {
    if |order| > 0 {
      ClassNamesInOrder(whitelist, groups, ms, order[1..]);
      var rest := Classes(whitelist, groups, ms, order[1..]).value;
      var cs := Classes(whitelist, groups, ms, order).value;
      assert forall x :: x in order[1..] ==> x in order;
      if cs != rest {
        assert cs == [cs[0]] + rest;
      }
    }
  }

  /** No two classes share a name when the order has no repeats. */
  lemma {:induction false} ClassNamesDistinct(whitelist: seq<string>, groups: seq<MessageGroup>, ms: seq<Msg>, order: seq<string>)
    requires Classes(whitelist, groups, ms, order).Ok?
    requires forall i, j :: 0 <= i < j < |order| ==> order[i] != order[j]
    ensures var cs := Classes(whitelist, groups, ms, order).value;
            forall i, j :: 0 <= i < j < |cs| ==> cs[i].name != cs[j].name
  {
    if |order| > 0 {
      ClassNamesDistinct(whitelist, groups, ms, order[1..]);
      ClassNamesInOrder(whitelist, groups, ms, order[1..]);
      var rest := Classes(whitelist, groups, ms, order[1..]).value;
      var cs := Classes(whitelist, groups, ms, order).value;
      if cs != rest {
        assert cs == [cs[0]] + rest;
        assert order[0] !in order[1..];
      }
    }
  }

  /** The entry points are distinct when the class names are distinct
      and none is a fixed entry point's name. */
  lemma EntryPointsDistinct(fs: seq<string>, cs: seq<ClassDecl>, order: seq<string>)
    requires |fs| == 3 + |cs| && fs[..3] == FixedEntryPoints
    requires forall i :: 0 <= i < |cs| ==> fs[3 + i] == "pb" + cs[i].name && cs[i].name in order
    requires forall i, j :: 0 <= i < j < |cs| ==> cs[i].name != cs[j].name
    requires forall i :: 0 <= i < |order| ==> order[i] !in ["SuperTypes", "Enumerations", "Bitfields"]
    ensures forall i, j :: 0 <= i < j < |fs| ==> fs[i] != fs[j]
  {
    var fixed := ["SuperTypes", "Enumerations", "Bitfields"];
    assert forall i :: 0 <= i < 3 ==> fs[i] == FixedEntryPoints[i] == "pb" + fixed[i];
    forall i, j | 0 <= i < j < |fs| ensures fs[i] != fs[j] {
      if 3 <= i {
        PrefixedDistinct(cs[i - 3].name, cs[j - 3].name);
      } else if 3 <= j {
        assert cs[j - 3].name in order;
        PrefixedDistinct(fixed[i], cs[j - 3].name);
      } else {
        PrefixedDistinct(fixed[i], fixed[j]);
      }
    }
  }

  /** Every entry point is declared and called once: with no repeats in
      the order, and no abbreviation that is a fixed entry point's name,
      no name repeats. */
  lemma FunctionsDistinct(whitelist: seq<string>, groups: seq<MessageGroup>, enums: seq<Enum>, bitfields: seq<Enum>,
                          ms: seq<Msg>, order: seq<string>)
    requires forall i, j :: 0 <= i < j < |order| ==> order[i] != order[j]
    requires forall i :: 0 <= i < |order| ==> order[i] !in ["SuperTypes", "Enumerations", "Bitfields"]
    requires Generate(whitelist, groups, enums, bitfields, ms, order).Ok?
    ensures var fs := Generate(whitelist, groups, enums, bitfields, ms, order).value.functions;
            forall i, j :: 0 <= i < j < |fs| ==> fs[i] != fs[j]
  {
    var b := Generate(whitelist, groups, enums, bitfields, ms, order).value;
    assert b.classes == Classes(whitelist, groups, ms, order).value;
    ClassNamesInOrder(whitelist, groups, ms, order);
    ClassNamesDistinct(whitelist, groups, ms, order);
    EntryPointsDistinct(b.functions, b.classes, order);
  }

  /** The message types named by the fields of bound messages are
      instantiated. */
  lemma InstantiatedFromBound(bound: seq<Msg>, m: Msg, f: Field)
    requires m in bound && f in m.fields && Truthy(f.messageType)
    ensures f.messageType.value in TableKeys(MessageLists(AllFields(bound)))
  {
    var k := f.messageType.value;
    MessageListsKeys(AllFields(bound), k);
    AllFieldsDeps(bound, k);
    var j :| 0 <= j < |bound| && bound[j] == m;
    assert k in DepsOf(bound[j]);
  }

  /** The type of each MessageList field of a bound class is one the run
      instantiates, under the same name its C++ type uses. */
  lemma MessageListFieldInstantiated(whitelist: seq<string>, groups: seq<MessageGroup>, enums: seq<Enum>, bitfields: seq<Enum>,
                                     ms: seq<Msg>, order: seq<string>, i: nat, f: Field)
    requires Generate(whitelist, groups, enums, bitfields, ms, order).Ok?
    requires i < |order| && Pybind.Listed(whitelist, order[i]) && Lookup(ms, order[i]).Some?
    requires f in Lookup(ms, order[i]).value.fields && f.typ == "message-list" && Truthy(f.messageType)
    ensures CxxType(f) == "MessageList<" + f.messageType.value + ">"
    ensures f.messageType.value in Generate(whitelist, groups, enums, bitfields, ms, order).value.messageLists
  {
    BoundContains(whitelist, ms, order, i);
    InstantiatedFromBound(Bound(whitelist, ms, order), Lookup(ms, order[i]).value, f);
  }
}
