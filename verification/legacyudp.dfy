/** The older receive path, `IMCProtocolUDP.datagram_received` in
    pyimc/udp.py: parse a datagram with a freshly reset parser and call the
    subscribed handlers directly, without isolating their exceptions. */
module LegacyUdp {
  import opened Prelude
  import opened Messages
  import opened ListDict
  import opened Dispatch

  /** Runs the handlers in order until one raises; that exception ends the
      loop. */
  function RunUntil(hs: seq<Handler>, m: Message, run: Behaviour): (r: (seq<Step>, Option<Exc>))
    ensures r.1.None? ==> Invoked(r.0) == hs
    ensures r.1.Some? ==> 0 < |Invoked(r.0)| <= |hs| && Invoked(r.0) == hs[..|Invoked(r.0)|]
                          && r.1 == run(hs[|Invoked(r.0)| - 1], m)
    ensures forall i :: 0 <= i < |Invoked(r.0)| - 1 ==> run(hs[i], m).None?
  {
    if |hs| == 0 then ([], None)
    else match run(hs[0], m)
      case Some(e) =>
        assert Invoked([Raised(hs[0], e)]) == [hs[0]];
        ([Raised(hs[0], e)], Some(e))
      case None =>
        var rest := RunUntil(hs[1..], m, run);
        InvokedAppend([Ran(hs[0])], rest.0);
        assert Invoked([Ran(hs[0])]) == [hs[0]];
        assert hs == [hs[0]] + hs[1..];
        assert forall i :: 1 <= i < |hs| ==> hs[i] == hs[1..][i - 1];
        ([Ran(hs[0])] + rest.0, rest.1)
  }

  /** `try: for fn in _subs[key]: fn(p) ... except KeyError: pass` for one
      key: a missing key or a handler's KeyError is swallowed (and stops
      the block), any other exception escapes. The results are the steps,
      the exception that escapes, and whether the block was left early. */
  function TryKey(subs: Subs, key: SubKey, m: Message, run: Behaviour): (r: (seq<Step>, Option<Exc>, bool))
  {
    if key !in Keys(subs) then ([], None, true)
    else
      var u := RunUntil(Get(subs, key), m, run);
      match u.1
      case None => (u.0, None, false)
      case Some(e) => (u.0, if IsKeyError(e) then None else Some(e), true)
  }

  /** `datagram_received(data, addr)`, given what the reset parser makes of
      `data`: since the parser is reset first, that depends on this
      datagram alone. Direct `Message` subclasses go to their own handlers
      and then the catch-all ones inside one `try`; a plain `Message` goes
      to the catch-all handlers; anything else only warns. */
  function DatagramReceived(subs: Subs, p: Posted, run: Behaviour): (seq<Step>, Option<Exc>) {
    match p
    case Foreign => ([NotAMessage], None)
    case Imc(m) =>
      match ClassOf(m)
      case None =>
        var w := TryKey(subs, AnyMessage, m, run);
        (w.0, w.1)
      case Some(c) =>
        if !c.directlyDerived then ([NotAMessage], None)
        else
          var own := TryKey(subs, Of(c), m, run);
          if own.2 || own.1.Some? then (own.0, own.1)
          else
            var w := TryKey(subs, AnyMessage, m, run);
            (own.0 + w.0, w.1)
  }

  /** A type with no handlers of its own keeps the message from the
      catch-all handlers too; a type whose base is a message group reaches
      no handler at all. */
  lemma DatagramSkipsWildcards(subs: Subs, m: Message, run: Behaviour)
    requires ClassOf(m).Some?
    requires Of(ClassOf(m).value) !in Keys(subs) || !ClassOf(m).value.directlyDerived
    ensures Invoked(DatagramReceived(subs, Imc(m), run).0) == []
    ensures DatagramReceived(subs, Imc(m), run).1 == None
  {
    assert Invoked([NotAMessage]) == [];
  }

  /** When no handler raises and the type has its own entry, the old path
      invokes the same handlers as `post_message`, in the same order; a
      plain `Message` reaches exactly the catch-all handlers. */
  lemma DatagramMatchesPostWhenQuiet(subs: Subs, m: Message, run: Behaviour)
    requires forall h :: run(h, m).None?
    requires ClassOf(m).Some? ==> ClassOf(m).value.directlyDerived && Of(ClassOf(m).value) in Keys(subs)
    ensures var r := DatagramReceived(subs, Imc(m), run);
            && r.1 == None
            && Invoked(r.0) == Invoked(PostMessage(subs, Imc(m), run))
  {
    PostMessageReaches(subs, Imc(m), run);
    var all := Get(subs, AnyMessage);
    if AnyMessage !in Keys(subs) {
      PresentOrEmpty(subs, AnyMessage);
    }
    if ClassOf(m).Some? {
      var c := ClassOf(m).value;
      var own := TryKey(subs, Of(c), m, run);
      var w := TryKey(subs, AnyMessage, m, run);
      InvokedAppend(own.0, w.0);
      assert Invoked([]) == [];
      assert Get(subs, Of(c)) + [] == Get(subs, Of(c));
    }
  }

  /** A handler that raises stops the handlers after it; only a KeyError
      is swallowed. */
  lemma DatagramStopsAtException(subs: Subs, m: Message, run: Behaviour)
    requires ClassOf(m).Some? && ClassOf(m).value.directlyDerived
    requires Of(ClassOf(m).value) in Keys(subs)
    ensures var hs := Get(subs, Of(ClassOf(m).value));
            var r := DatagramReceived(subs, Imc(m), run);
            var u := RunUntil(hs, m, run);
            u.1.Some? ==>
              && Invoked(r.0) == hs[..|Invoked(u.0)|]
              && (r.1.Some? <==> !IsKeyError(u.1.value))
  {
  }
}
