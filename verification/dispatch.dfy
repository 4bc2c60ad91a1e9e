/** Message dispatch of `IMCBase` (pyimc/actors/base.py): collecting the
    subscribed methods at setup, ordering each handler list by class
    hierarchy, and posting a received message to its handlers. What a
    handler does is a parameter: for each handler and message, whether it
    returns or raises. */
module Dispatch {
  import opened Prelude
  import opened Strings
  import opened Messages
  import opened ListDict
  import opened StableSort
  import opened Decorators

  /** A subscribed method, known by its `__qualname__` (`Class.method`). */
  datatype Handler = Handler(qualname: string)

  /** `_subs`: handlers by message type. */
  type Subs = Dict<SubKey, Handler>

  /** The exception a handler raises on a message, or `None`. */
  type Behaviour = (Handler, Message) -> Option<Exc>

  /** One observable step of `post_message`. */
  datatype Step =
    | Ran(h: Handler)
      /** the handler raised; `on_exception(loc=qualname, exc)` was called */
    | Raised(h: Handler, exc: Exc)
      /** warning for a message type without bindings */
    | UnknownType(id: int)
      /** warning for an object that is not an IMC message */
    | NotAMessage

  /** The handlers invoked, in order, whether they returned or raised. */
  function Invoked(steps: seq<Step>): seq<Handler> {
    if |steps| == 0 then []
    else (if steps[0].Ran? || steps[0].Raised? then [steps[0].h] else []) + Invoked(steps[1..])
  }

  lemma {:induction false} InvokedAppend(a: seq<Step>, b: seq<Step>)
    ensures Invoked(a + b) == Invoked(a) + Invoked(b)
  {
    if |a| > 0 {
      InvokedAppend(a[1..], b);
      assert (a + b)[1..] == a[1..] + b;
    } else {
      assert a + b == b;
    }
  }

  /** Each handler in turn, each inside its own try/except. */
  function RunEach(hs: seq<Handler>, m: Message, run: Behaviour): (steps: seq<Step>)
    ensures |steps| == |hs|
    ensures forall i :: 0 <= i < |hs| ==> steps[i].Ran? || steps[i].Raised?
    ensures forall i :: 0 <= i < |hs| ==> steps[i].h == hs[i]
    ensures forall i :: 0 <= i < |hs| ==> (steps[i].Raised? <==> run(hs[i], m).Some?)
    ensures forall i :: 0 <= i < |hs| && steps[i].Raised? ==> Some(steps[i].exc) == run(hs[i], m)
  {
    if |hs| == 0 then []
    else
      var rest := RunEach(hs[1..], m, run);
      var first := match run(hs[0], m) case Some(e) => Raised(hs[0], e) case None => Ran(hs[0]);
      [first] + rest
  }

  /** A handler's exception does not stop the others: every handler of the
      list is invoked, in list order. */
  lemma {:induction false} RunEachInvokesAll(hs: seq<Handler>, m: Message, run: Behaviour)
    ensures Invoked(RunEach(hs, m, run)) == hs
  {
    if |hs| > 0 {
      var steps := RunEach(hs, m, run);
      RunEachInvokesAll(hs[1..], m, run);
      assert steps[1..] == RunEach(hs[1..], m, run);
    }
  }

  /** `post_message(msg)` */
  function PostMessage(subs: Subs, p: Posted, run: Behaviour): seq<Step> {
    match p
    case Foreign => [NotAMessage]
    case Imc(m) =>
      var own := match ClassOf(m)
        case Some(c) => RunEach(Get(subs, Of(c)), m, run)
        case None => [UnknownType(m.body.id)];
      own + RunEach(Get(subs, AnyMessage), m, run)
  }

  /** A message of a bound type reaches its own type's handlers in order,
      then the catch-all handlers; a message without bindings reaches only
      the catch-all handlers, after a warning; anything else reaches none.
      Every handler's exception is reported as raised by that handler. */
  lemma PostMessageReaches(subs: Subs, p: Posted, run: Behaviour)
    ensures var steps := PostMessage(subs, p, run);
            && (p.Foreign? ==> Invoked(steps) == [] && steps == [NotAMessage])
            && (p.Imc? && ClassOf(p.msg).Some? ==>
                  Invoked(steps) == Get(subs, Of(ClassOf(p.msg).value)) + Get(subs, AnyMessage))
            && (p.Imc? && ClassOf(p.msg).None? ==>
                  Invoked(steps) == Get(subs, AnyMessage) && steps[0] == UnknownType(p.msg.body.id))
            && (forall i :: 0 <= i < |steps| && steps[i].Raised? ==> p.Imc? && run(steps[i].h, p.msg) == Some(steps[i].exc))
  {
    if p.Imc? {
      var m := p.msg;
      var all := RunEach(Get(subs, AnyMessage), m, run);
      RunEachInvokesAll(Get(subs, AnyMessage), m, run);
      match ClassOf(m)
      case Some(c) =>
        var own := RunEach(Get(subs, Of(c)), m, run);
        RunEachInvokesAll(Get(subs, Of(c)), m, run);
        InvokedAppend(own, all);
      case None =>
        InvokedAppend([UnknownType(m.body.id)], all);
        assert Invoked([UnknownType(m.body.id)]) == [];
    } else {
      assert Invoked([NotAMessage]) == [];
    }
  }

  // ---------------------------------------------------------------------
  // setup: collecting the subscriptions
  // ---------------------------------------------------------------------

  /** A decorated member as `inspect.getmembers` lists it (by name). */
  datatype Method = Method(h: Handler, sig: Sig, decorators: seq<Decorator>)

  /** The subscriptions one decorator contributes: `None` when its `subs`
      attribute is unset. */
  function SubsOf(d: Decorator): Option<seq<SubKey>> {
    match d
    case SubscribeDec(s) => s
    case _ => Some([])
  }

  /** `add_event` of one decorator: the signature checks of `Periodic` and
      `RunOnce`. */
  function AddEventCheck(d: Decorator, sig: Sig): Option<Exc> {
    if d.SubscribeDec? then None else CheckNoRequired(sig)
  }

  /** Appends `h` under each type in order. */
  function AppendAll(subs: Subs, ts: seq<SubKey>, h: Handler): Subs
    decreases |ts|
  {
    if |ts| == 0 then subs else AppendAll(Append(subs, ts[0], h), ts[1..], h)
  }

  /** How many times `t` occurs in `ts`. */
  function Count(ts: seq<SubKey>, t: SubKey): nat {
    if |ts| == 0 then 0 else (if ts[0] == t then 1 else 0) + Count(ts[1..], t)
  }

  function Repeat(h: Handler, n: nat): (r: seq<Handler>)
    ensures |r| == n && forall i :: 0 <= i < n ==> r[i] == h
  {
    if n == 0 then [] else [h] + Repeat(h, n - 1)
  }

  lemma {:induction false} AppendAllGet(subs: Subs, ts: seq<SubKey>, h: Handler, t: SubKey)
    ensures Get(AppendAll(subs, ts, h), t) == Get(subs, t) + Repeat(h, Count(ts, t))
    decreases |ts|
  {
    if |ts| > 0 {
      AppendGet(subs, ts[0], h, t);
      AppendAllGet(Append(subs, ts[0], h), ts[1..], h, t);
      if ts[0] == t {
        assert Repeat(h, Count(ts, t)) == [h] + Repeat(h, Count(ts[1..], t));
      }
    } else {
      assert Get(subs, t) + [] == Get(subs, t);
    }
  }

  /** The loop of `_setup_event_loop` over one method's decorators: each
      decorator's `add_event` first (an AssertionError there ends setup),
      then its subscriptions. Reading `subs` of a `Subscribe()` without
      arguments raises AttributeError. */
  function AddDecorators(subs: Subs, h: Handler, sig: Sig, ds: seq<Decorator>): (Subs, Option<Exc>)
    decreases |ds|
  {
    if |ds| == 0 then (subs, None)
    else match AddEventCheck(ds[0], sig)
      case Some(e) => (subs, Some(e))
      case None =>
        match SubsOf(ds[0])
        case None => (subs, Some(AttributeError))
        case Some(ts) => AddDecorators(AppendAll(subs, ts, h), h, sig, ds[1..])
  }

  function AddMethods(subs: Subs, ms: seq<Method>): (Subs, Option<Exc>)
    decreases |ms|
  {
    if |ms| == 0 then (subs, None)
    else
      var r := AddDecorators(subs, ms[0].h, ms[0].sig, ms[0].decorators);
      if r.1.Some? then r else AddMethods(r.0, ms[1..])
  }

  /** The handlers a list of methods subscribes to `t`, in member order,
      then decorator order, then argument order: the reference for what
      setup collects. */
  function Subscribers(ms: seq<Method>, t: SubKey): seq<Handler>
    decreases |ms|
  {
    if |ms| == 0 then [] else DecoratorSubscribers(ms[0].h, ms[0].decorators, t) + Subscribers(ms[1..], t)
  }

  function DecoratorSubscribers(h: Handler, ds: seq<Decorator>, t: SubKey): seq<Handler>
    decreases |ds|
  {
    if |ds| == 0 then []
    else
      var ts := if SubsOf(ds[0]).Some? then SubsOf(ds[0]).value else [];
      Repeat(h, Count(ts, t)) + DecoratorSubscribers(h, ds[1..], t)
  }

  lemma AppendAssoc3<T>(a: seq<T>, b: seq<T>, c: seq<T>)
    ensures a + b + c == a + (b + c)
  {
  }

  lemma {:induction false} AddDecoratorsGet(subs: Subs, h: Handler, sig: Sig, ds: seq<Decorator>, t: SubKey)
    requires AddDecorators(subs, h, sig, ds).1.None?
    ensures Get(AddDecorators(subs, h, sig, ds).0, t) == Get(subs, t) + DecoratorSubscribers(h, ds, t)
    decreases |ds|
  {
    if |ds| > 0 {
      var ts := SubsOf(ds[0]).value;
      AppendAllGet(subs, ts, h, t);
      AddDecoratorsGet(AppendAll(subs, ts, h), h, sig, ds[1..], t);
      AppendAssoc3(Get(subs, t), Repeat(h, Count(ts, t)), DecoratorSubscribers(h, ds[1..], t));
    } else {
      assert Get(subs, t) + [] == Get(subs, t);
    }
  }

  /** When setup raises nothing, each type's handler list is exactly the
      reference list: every subscribing method once per subscription, in
      member order. */
  lemma {:induction false} AddMethodsGet(subs: Subs, ms: seq<Method>, t: SubKey)
    requires AddMethods(subs, ms).1.None?
    ensures Get(AddMethods(subs, ms).0, t) == Get(subs, t) + Subscribers(ms, t)
    decreases |ms|
  {
    if |ms| > 0 {
      var r := AddDecorators(subs, ms[0].h, ms[0].sig, ms[0].decorators);
      AddDecoratorsGet(subs, ms[0].h, ms[0].sig, ms[0].decorators, t);
      AddMethodsGet(r.0, ms[1..], t);
      AppendAssoc3(Get(subs, t), DecoratorSubscribers(ms[0].h, ms[0].decorators, t), Subscribers(ms[1..], t));
    } else {
      assert Get(subs, t) + [] == Get(subs, t);
    }
  }

  // ---------------------------------------------------------------------
  // setup: ordering by class hierarchy
  // ---------------------------------------------------------------------

  /** The class part of a qualified name: `qualname.split('.')[0]`. */
  function Owner(h: Handler): string {
    Split(h.qualname, '.')[0]
  }

  /** `lst.index(x)`: the first position of `x`. */
  function IndexOf(lst: seq<string>, x: string): (i: nat)
    requires x in lst
    ensures i < |lst| && lst[i] == x && x !in lst[..i]
  {
    if lst[0] == x then 0
    else
      var j := IndexOf(lst[1..], x);
      assert lst[..j + 1] == [lst[0]] + lst[1..][..j];
      j + 1
  }

  /** `cls_hier.index(owner)`: how far up the MRO the handler's class is
      (-1 when it is not there). */
  function MroPos(mro: seq<string>, h: Handler): int {
    if Owner(h) in mro then IndexOf(mro, Owner(h)) else -1
  }

  /** The sort key `-cls_hier.index(owner)`: classes further up the MRO
      (the more basic ones) get smaller keys and come first. */
  function MroKey(mro: seq<string>): Handler -> int {
    h => -MroPos(mro, h)
  }

  /** `methods.sort(key=...)`: ValueError, with the list unchanged, when
      some handler's class is not in the hierarchy; otherwise a stable sort
      by the key. */
  function SortHandlers(mro: seq<string>, hs: seq<Handler>): Result<seq<Handler>> {
    if exists i :: 0 <= i < |hs| && Owner(hs[i]) !in mro then Err(ValueError)
    else Ok(SortBy(hs, MroKey(mro)))
  }

  /** `r` holds the handlers of `hs`; a handler of a more basic class
      never comes after one of a more derived class; handlers of the same
      class keep their order in `hs`. */
  ghost predicate MroOrdered(mro: seq<string>, r: seq<Handler>, hs: seq<Handler>) {
    && multiset(r) == multiset(hs)
    && (forall i, j :: 0 <= i < j < |r| ==> MroPos(mro, r[i]) >= MroPos(mro, r[j]))
    && (forall k :: KeyFilter(r, MroKey(mro), k) == KeyFilter(hs, MroKey(mro), k))
  }

  /** Sorting fails exactly when a handler's class is outside the
      hierarchy; otherwise the result is the list in hierarchy order. */
  lemma SortHandlersOrder(mro: seq<string>, hs: seq<Handler>)
    ensures SortHandlers(mro, hs).Err? <==> exists i :: 0 <= i < |hs| && Owner(hs[i]) !in mro
    ensures SortHandlers(mro, hs).Err? ==> SortHandlers(mro, hs).exc == ValueError
    ensures SortHandlers(mro, hs).Ok? ==> MroOrdered(mro, SortHandlers(mro, hs).value, hs)
  {
    if SortHandlers(mro, hs).Ok? {
      var r := SortBy(hs, MroKey(mro));
      forall k ensures KeyFilter(r, MroKey(mro), k) == KeyFilter(hs, MroKey(mro), k) {
        SortStable(hs, MroKey(mro), k);
      }
      forall i | 0 <= i < |r| ensures Owner(r[i]) in mro {
        assert r[i] in multiset(hs);
      }
    }
  }

  /** The sorting loop over every type's list; a ValueError ends it. */
  function SortAll(mro: seq<string>, subs: Subs): (r: (Subs, Option<Exc>))
    ensures Keys(r.0) == Keys(subs)
  {
    if |subs| == 0 then ([], None)
    else match SortHandlers(mro, subs[0].1)
      case Err(e) => (subs, Some(e))
      case Ok(hs) =>
        var rest := SortAll(mro, subs[1..]);
        ([(subs[0].0, hs)] + rest.0, rest.1)
  }

  /** Without error, each type's list is its sorted original. */
  lemma {:induction false} SortAllGet(mro: seq<string>, subs: Subs, t: SubKey)
    requires SortAll(mro, subs).1.None?
    ensures t in Keys(subs) ==> SortHandlers(mro, Get(subs, t)) == Ok(Get(SortAll(mro, subs).0, t))
    ensures t !in Keys(subs) ==> Get(SortAll(mro, subs).0, t) == []
  {
    if |subs| > 0 && subs[0].0 != t {
      SortAllGet(mro, subs[1..], t);
    }
  }

  /** `_setup_event_loop` from an empty `_subs` over the decorated members
      and the class hierarchy `mro` (qualified names, most derived first). */
  function Setup(ms: seq<Method>, mro: seq<string>): (Subs, Option<Exc>) {
    var collected := AddMethods([], ms);
    if collected.1.Some? then collected else SortAll(mro, collected.0)
  }

  /** After a setup without error, every type's handlers are exactly the
      methods that subscribe to it, ordered base classes first and, within
      a class, in member order. */
  lemma SetupHandlers(ms: seq<Method>, mro: seq<string>, t: SubKey)
    requires Setup(ms, mro).1.None?
    ensures MroOrdered(mro, Get(Setup(ms, mro).0, t), Subscribers(ms, t))
  {
    var collected := AddMethods([], ms);
    AddMethodsGet([], ms, t);
    assert Get(collected.0, t) == Subscribers(ms, t);
    SortAllGet(mro, collected.0, t);
    SortHandlersOrder(mro, Get(collected.0, t));
    if t !in Keys(collected.0) {
      PresentOrEmpty(collected.0, t);
    }
  }

  lemma PresentOrEmpty<K, V>(m: Dict<K, V>, k: K)
    requires k !in Keys(m)
    ensures Get(m, k) == []
  {
  }
}
