/** `PlaybackActor.playback` (pyimc/actors/playback.py): replays logged
    messages. Each source's log time is shifted so that its first message
    falls at the moment playback started; messages before the optional
    start time are not posted, though the announces and entity lists among
    them still reach the node registry; every other message waits until
    its shifted time, scaled by the playback speed, and is then posted.

    The messages arrive as a parameter in log order (the LSF walk is
    modelled in `Lsf`), and so do the clock readings: `clock(i)` is what
    `time.time()` returns while message `i` is handled, `t0` what it
    returned when playback began. */
module Playback {
  import opened Prelude
  import opened Messages
  import opened ListDict
  import Dispatch

  // ---------------------------------------------------------------------
  // the type filter
  // ---------------------------------------------------------------------

  /** `pyimc.Message in t.__bases__`: a concrete message class derived
      straight from `pyimc.Message`. The wildcard `pyimc.Message` is not
      derived from itself. */
  predicate Direct(k: SubKey) {
    k.Of? && k.cls.directlyDerived
  }

  /** The message types playback asks the reader for: `None` (every
      type) when some subscribed type is not a direct message class,
      otherwise the subscribed types followed by LoggingControl, the
      first record of a log. */
  function MsgTypes(subs: Dispatch.Subs): (r: Option<seq<SubKey>>)
    ensures r.None? <==> exists k :: k in Keys(subs) && !Direct(k)
    ensures r.Some? ==> |r.value| == |Keys(subs)| + 1
                        && r.value[..|Keys(subs)|] == Keys(subs)
                        && r.value[|Keys(subs)|] == Of(LoggingControlClass)
    ensures AnyMessage in Keys(subs) ==> r.None?
  {
    var keys := Keys(subs);
    if forall i :: 0 <= i < |keys| ==> Direct(keys[i]) then
      Some(keys + [Of(LoggingControlClass)])
    else
      None
  }

  // ---------------------------------------------------------------------
  // one message
  // ---------------------------------------------------------------------

  /** The constructor arguments `speed`, `offset_time` and `start_time`. */
  datatype Config = Config(speed: real, offsetTime: bool, startTime: Option<real>)

  /** What handling a logged message does: hand it to a registry handler
      (`recv_announce`, `recv_entity_list`, `recv_entity_info`), sleep,
      or post it to the actor's subscribers. */
  datatype Effect = Feed(msg: Message) | Sleep(seconds: real) | Post(msg: Message)

  /** Python truthiness of `start_time`: set and nonzero. */
  predicate Truthy(t: Option<real>) {
    t.Some? && t.value != 0.0
  }

  /** Announce, EntityList and EntityInfo: the messages the registry keeps
      up to date from, even while skipping. */
  predicate IsCore(m: Message) {
    m.body.Announce? || m.body.EntityList? || m.body.EntityInfo?
  }

  /** `t_msg`: the message's log time shifted so that `origin`, the first
      timestamp logged by its source, falls at `t0`. */
  function PlayTime(t0: real, origin: real, m: Message): real {
    t0 + m.h.timestamp - origin
  }

  /** The message as playback handles it: with `offset_time`, stamped with
      its play time. */
  function Retimed(c: Config, t0: real, origin: real, m: Message): (r: Message)
    ensures r.body == m.body && r.h.(timestamp := m.h.timestamp) == m.h
    ensures c.offsetTime ==> r.h.timestamp - t0 == m.h.timestamp - origin
    ensures !c.offsetTime ==> r == m
  {
    if c.offsetTime then WithTimestamp(m, PlayTime(t0, origin, m)) else m
  }

  /** Whether a (retimed) message falls before the start time. */
  predicate Skipped(c: Config, m: Message) {
    Truthy(c.startTime) && m.h.timestamp < c.startTime.value
  }

  /** How long to wait before posting: the time until `t_msg`, divided by
      the speed; no wait for a speed that is not positive, and never a
      negative one. */
  function SleepFor(c: Config, tmsg: real, now: real): (s: real)
    ensures s >= 0.0
    ensures c.speed <= 0.0 ==> s == 0.0
    ensures c.speed > 0.0 && tmsg > now ==> s * c.speed == tmsg - now
    ensures tmsg <= now ==> s == 0.0
  {
    Max(0.0, if c.speed > 0.0 then (tmsg - now) / c.speed else 0.0)
  }

  /** The body of the loop for one message whose source first logged at
      `origin`, at clock reading `now`. */
  function Handle(c: Config, t0: real, origin: real, m: Message, now: real): (r: seq<Effect>)
    ensures var m' := Retimed(c, t0, origin, m);
            && (Skipped(c, m') && IsCore(m) ==> r == [Feed(m')])
            && (Skipped(c, m') && !IsCore(m) ==> r == [])
            && (!Skipped(c, m') ==> |r| == 2 && r[0].Sleep? && r[0].seconds >= 0.0 && r[1] == Post(m'))
  {
    var m' := Retimed(c, t0, origin, m);
    if Skipped(c, m') then
      if IsCore(m) then [Feed(m')] else []
    else
      [Sleep(SleepFor(c, PlayTime(t0, origin, m), now)), Post(m')]
  }

  // ---------------------------------------------------------------------
  // the loop
  // ---------------------------------------------------------------------

  /** The loop from message `i` on, with `sys` the `t0_sys` map so far:
      the first message of a source records its timestamp there, and
      later ones leave it alone. */
  function PlayFrom(c: Config, t0: real, sys: map<int, real>, msgs: seq<Message>,
                    clock: nat -> real, i: nat): (r: seq<Effect>)
    ensures forall j :: 0 <= j < |r| && r[j].Sleep? ==> r[j].seconds >= 0.0
    decreases |msgs| - i
  {
    if i >= |msgs| then []
    else
      var src := msgs[i].h.src;
      var sys' := if src in sys then sys else sys[src := msgs[i].h.timestamp];
      var here := Handle(c, t0, sys'[src], msgs[i], clock(i));
      var rest := PlayFrom(c, t0, sys', msgs, clock, i + 1);
      assert forall j :: 0 <= j < |here| ==> (here + rest)[j] == here[j];
      assert forall j :: |here| <= j < |here + rest| ==> (here + rest)[j] == rest[j - |here|];
      here + rest
  }

  /** `playback()` over the log's messages. */
  function Play(c: Config, t0: real, msgs: seq<Message>, clock: nat -> real): seq<Effect> {
    PlayFrom(c, t0, map[], msgs, clock, 0)
  }

  // ---------------------------------------------------------------------
  // the plan: a reference definition without the map
  // ---------------------------------------------------------------------

  /** The timestamp of the first message from `src` in `ms`, if any. */
  function Origin(ms: seq<Message>, src: int): Option<real> {
    if |ms| == 0 then None
    else if ms[0].h.src == src then Some(ms[0].h.timestamp)
    else Origin(ms[1..], src)
  }

  /** The origin message `i` is timed against: the first timestamp its
      source logged before it, or its own when it is the first. */
  function OriginAt(msgs: seq<Message>, i: nat): real
    requires i < |msgs|
  {
    match Origin(msgs[..i], msgs[i].h.src)
    case Some(t) => t
    case None => msgs[i].h.timestamp
  }

  /** Message `i` as it is fed or posted. */
  function AsPlayed(c: Config, t0: real, msgs: seq<Message>, i: nat): Message
    requires i < |msgs|
  {
    Retimed(c, t0, OriginAt(msgs, i), msgs[i])
  }

  /** What playback should do from message `i` on. */
  function PlannedFrom(c: Config, t0: real, msgs: seq<Message>, clock: nat -> real, i: nat): seq<Effect>
    decreases |msgs| - i
  {
    if i >= |msgs| then []
    else Handle(c, t0, OriginAt(msgs, i), msgs[i], clock(i)) + PlannedFrom(c, t0, msgs, clock, i + 1)
  }

  /** The messages posted from message `i` on, in log order: the ones not
      before the start time, retimed. */
  function KeptFrom(c: Config, t0: real, msgs: seq<Message>, i: nat): seq<Message>
    decreases |msgs| - i
  {
    if i >= |msgs| then []
    else
      var m := AsPlayed(c, t0, msgs, i);
      (if Skipped(c, m) then [] else [m]) + KeptFrom(c, t0, msgs, i + 1)
  }

  /** The messages an effect list posts, in order. */
  function Posts(es: seq<Effect>): seq<Message> {
    if |es| == 0 then []
    else (if es[0].Post? then [es[0].msg] else []) + Posts(es[1..])
  }

  /** The first message from a source, once seen, stays its first. */
  lemma {:induction false} OriginAppend(ms: seq<Message>, m: Message, src: int)
    ensures Origin(ms + [m], src)
            == if Origin(ms, src).Some? then Origin(ms, src)
               else if m.h.src == src then Some(m.h.timestamp)
               else None
  {
    if |ms| > 0 {
      assert (ms + [m])[1..] == ms[1..] + [m];
      OriginAppend(ms[1..], m, src);
    }
  }

  /** `sys` holds, for each source seen among the first `i` messages,
      that source's first timestamp, and nothing else. */
  ghost predicate FirstSeen(sys: map<int, real>, msgs: seq<Message>, i: nat)
    requires i <= |msgs|
  {
    forall src :: (src in sys <==> Origin(msgs[..i], src).Some?)
                  && (src in sys ==> sys[src] == Origin(msgs[..i], src).value)
  }

  /** One turn of the loop keeps `FirstSeen` and times the message against
      its source's first timestamp. */
  lemma FirstSeenStep(sys: map<int, real>, msgs: seq<Message>, i: nat)
    requires i < |msgs| && FirstSeen(sys, msgs, i)
    ensures var src := msgs[i].h.src;
            var sys' := if src in sys then sys else sys[src := msgs[i].h.timestamp];
            && FirstSeen(sys', msgs, i + 1)
            && sys'[src] == OriginAt(msgs, i)
  {
    var src := msgs[i].h.src;
    var sys' := if src in sys then sys else sys[src := msgs[i].h.timestamp];
    assert msgs[..i + 1] == msgs[..i] + [msgs[i]];
    forall s
      ensures (s in sys' <==> Origin(msgs[..i + 1], s).Some?)
              && (s in sys' ==> sys'[s] == Origin(msgs[..i + 1], s).value)
    {
      OriginAppend(msgs[..i], msgs[i], s);
    }
  }

  /** The loop, carrying its map, does what the plan says. */
  lemma {:induction false} PlayFromPlanned(c: Config, t0: real, sys: map<int, real>, msgs: seq<Message>,
                                           clock: nat -> real, i: nat)
    requires i <= |msgs| && FirstSeen(sys, msgs, i)
    ensures PlayFrom(c, t0, sys, msgs, clock, i) == PlannedFrom(c, t0, msgs, clock, i)
    decreases |msgs| - i
  {
    if i < |msgs| {
      var src := msgs[i].h.src;
      var sys' := if src in sys then sys else sys[src := msgs[i].h.timestamp];
      FirstSeenStep(sys, msgs, i);
      PlayFromPlanned(c, t0, sys', msgs, clock, i + 1);
    }
  }

  /** Playback follows the plan: every message is timed against the first
      timestamp its source logged. */
  lemma PlayIsPlanned(c: Config, t0: real, msgs: seq<Message>, clock: nat -> real)
    ensures Play(c, t0, msgs, clock) == PlannedFrom(c, t0, msgs, clock, 0)
  {
    assert msgs[..0] == [];
    PlayFromPlanned(c, t0, map[], msgs, clock, 0);
  }

  lemma {:induction false} PostsAppend(a: seq<Effect>, b: seq<Effect>)
    ensures Posts(a + b) == Posts(a) + Posts(b)
  {
    if |a| == 0 {
      assert a + b == b;
    } else {
      assert (a + b)[0] == a[0] && (a + b)[1..] == a[1..] + b;
      PostsAppend(a[1..], b);
    }
  }

  lemma {:induction false} PlannedPosts(c: Config, t0: real, msgs: seq<Message>, clock: nat -> real, i: nat)
    ensures Posts(PlannedFrom(c, t0, msgs, clock, i)) == KeptFrom(c, t0, msgs, i)
    decreases |msgs| - i
  {
    if i < |msgs| {
      var here := Handle(c, t0, OriginAt(msgs, i), msgs[i], clock(i));
      PostsAppend(here, PlannedFrom(c, t0, msgs, clock, i + 1));
      PlannedPosts(c, t0, msgs, clock, i + 1);
      var m := AsPlayed(c, t0, msgs, i);
      if Skipped(c, m) {
        assert Posts(here) == [] by {
          if |here| > 0 { assert here[1..] == []; }
        }
      } else {
        assert here[1..][1..] == [];
      }
    }
  }

  /** What gets posted does not depend on the clock: the messages not
      before the start time, retimed, in log order. */
  lemma PlayPosts(c: Config, t0: real, msgs: seq<Message>, clock: nat -> real)
    ensures Posts(Play(c, t0, msgs, clock)) == KeptFrom(c, t0, msgs, 0)
  {
    PlayIsPlanned(c, t0, msgs, clock);
    PlannedPosts(c, t0, msgs, clock, 0);
  }

  lemma {:induction false} KeptAll(c: Config, t0: real, msgs: seq<Message>, i: nat)
    requires !c.offsetTime && !Truthy(c.startTime) && i <= |msgs|
    ensures KeptFrom(c, t0, msgs, i) == msgs[i..]
    decreases |msgs| - i
  {
    if i < |msgs| {
      KeptAll(c, t0, msgs, i + 1);
      assert msgs[i..] == [msgs[i]] + msgs[i + 1..];
    }
  }

  /** Without retiming and without a start time, the whole log is posted
      unchanged and in order. */
  lemma PlayPostsAll(c: Config, t0: real, msgs: seq<Message>, clock: nat -> real)
    requires !c.offsetTime && !Truthy(c.startTime)
    ensures Posts(Play(c, t0, msgs, clock)) == msgs
  {
    PlayPosts(c, t0, msgs, clock);
    KeptAll(c, t0, msgs, 0);
  }

  /** With `offset_time`, the first message from each source is stamped
      with the playback start. */
  lemma FirstAtStart(c: Config, t0: real, msgs: seq<Message>, i: nat)
    requires c.offsetTime && i < |msgs|
    requires forall j :: 0 <= j < i ==> msgs[j].h.src != msgs[i].h.src
    ensures AsPlayed(c, t0, msgs, i).h.timestamp == t0
  {
    OriginNone(msgs[..i], msgs[i].h.src);
  }

  lemma {:induction false} OriginNone(ms: seq<Message>, src: int)
    requires forall j :: 0 <= j < |ms| ==> ms[j].h.src != src
    ensures Origin(ms, src) == None
  {
    if |ms| > 0 {
      assert forall j :: 0 <= j < |ms| - 1 ==> ms[1..][j] == ms[j + 1];
      OriginNone(ms[1..], src);
    }
  }

  /** Once a source has logged, its origin stays that first timestamp
      however much more of the log is read. */
  lemma {:induction false} OriginStable(ms: seq<Message>, k: nat, src: int)
    requires k <= |ms| && Origin(ms[..k], src).Some?
    ensures Origin(ms, src) == Origin(ms[..k], src)
  {
    if |ms| > 0 && ms[0].h.src != src {
      assert ms[..k][1..] == ms[1..][..k - 1];
      OriginStable(ms[1..], k - 1, src);
    }
  }

  /** A source's own message lies in any prefix that contains it. */
  lemma {:induction false} OriginSeen(ms: seq<Message>, j: nat)
    requires j < |ms|
    ensures Origin(ms, ms[j].h.src).Some?
  {
    if ms[0].h.src != ms[j].h.src {
      OriginSeen(ms[1..], j - 1);
    }
  }

  /** With `offset_time`, two messages from one source are played as far
      apart as they were logged. */
  lemma SameSourceSpacing(c: Config, t0: real, msgs: seq<Message>, i: nat, j: nat)
    requires c.offsetTime && i < j < |msgs| && msgs[i].h.src == msgs[j].h.src
    ensures AsPlayed(c, t0, msgs, j).h.timestamp - AsPlayed(c, t0, msgs, i).h.timestamp
            == msgs[j].h.timestamp - msgs[i].h.timestamp
  {
    var src := msgs[i].h.src;
    assert OriginAt(msgs, i) == Origin(msgs[..i + 1], src).value by {
      assert msgs[..i + 1] == msgs[..i] + [msgs[i]];
      OriginAppend(msgs[..i], msgs[i], src);
    }
    assert msgs[..j][..i + 1] == msgs[..i + 1];
    OriginSeen(msgs[..i + 1], i);
    OriginStable(msgs[..j], i + 1, src);
  }
}
