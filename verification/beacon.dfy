/** The run flag and the beacon loops: `start_beacon`, `stop_beacon` and
    `beacon_loop`, with threads replaced by an explicit interleaving. Each
    loop is a program counter that advances one step per `Tick`; a step
    reads the shared flag at most once. */
module Beacon {

  /** Where one `beacon_loop` stands:
      - `Top`: about to test `while running`;
      - `Sending`: inside `send_aprs_packet`, having seen the flag raised;
        the attempt completes (up to the 10-second socket timeout) whatever
        happens to the flag meanwhile;
      - `Waiting(left)`: inside `for _ in range(interval)` with `left`
        iterations to go, about to test `if not running`;
      - `Exited`: the thread has returned, or died in its start-up reads. */
  datatype Pc = Top | Sending | Waiting(left: nat) | Exited

  /** A spawned loop and the INTERVAL it read when it started. */
  datatype Loop = Loop(pc: Pc, interval: int)

  /** One call of `send_aprs_packet`, by loop number `loop`; `delivered`
      is whether the network part succeeded. */
  datatype Attempt = Attempt(loop: nat, delivered: bool)

  /** The global `running` flag, every loop ever spawned in spawn order,
      and every send so far. */
  datatype State = State(running: bool, loops: seq<Loop>, sends: seq<Attempt>)

  const Initial := State(false, [], [])

  /** `start_beacon`: nothing while running; otherwise raise the flag and
      spawn exactly one new loop. `readable` says whether the loop's
      start-up reads succeed: `float(LAT)` and `float(LON)` of the saved
      record, and the finite values that `decimal_to_aprs` needs before
      the `try` of the first send. When they fail the thread dies before
      sending anything, and the flag stays raised. */
  function Start(s: State, interval: int, readable: bool): (r: State)
    ensures r.running && r.sends == s.sends
    ensures s.running ==> r == s
    ensures !s.running ==> r.loops == s.loops + [Loop(if readable then Top else Exited, interval)]
  {
    if s.running then s
    else s.(running := true, loops := s.loops + [Loop(if readable then Top else Exited, interval)])
  }

  /** `stop_beacon`: lower the flag, whatever it was; loops notice it on
      their next test. */
  function Stop(s: State): (r: State)
    ensures !r.running && r.loops == s.loops && r.sends == s.sends
  {
    s.(running := false)
  }

  /** Whether loop `i` sees permission to go on. As written, the loop tests
      only the shared flag. With `ownerCheck` it also tests that it is the
      most recently spawned loop, the correction this model proposes. */
  predicate MayRun(s: State, i: nat, ownerCheck: bool) {
    s.running && (!ownerCheck || i + 1 == |s.loops|)
  }

  /** After a send: the wait of `range(interval)`, or straight back to the
      `while` test when the range is empty. */
  function AfterSend(interval: int): Pc {
    if interval > 0 then Waiting(interval) else Top
  }

  /** One step of loop `i`. At the `while` test it goes on to send or
      returns; a send completes (whatever the network does) without looking
      at the flag; in the wait it sleeps one second or breaks out to the
      `while` test. */
  function Tick(s: State, i: nat, delivered: bool, ownerCheck: bool): (r: State)
    requires i < |s.loops|
    ensures r.running == s.running && |r.loops| == |s.loops|
    ensures forall j :: 0 <= j < |s.loops| && j != i ==> r.loops[j] == s.loops[j]
    ensures r.loops[i].interval == s.loops[i].interval
    ensures s.loops[i].pc == Sending ==> r.sends == s.sends + [Attempt(i, delivered)] && r.loops[i].pc != Sending
    ensures s.loops[i].pc != Sending ==> r.sends == s.sends
    ensures r.loops[i].pc == Sending ==> s.loops[i].pc == Top && MayRun(s, i, ownerCheck)
    ensures r.loops[i].pc == Exited <==> s.loops[i].pc == Exited || (s.loops[i].pc == Top && !MayRun(s, i, ownerCheck))
  {
    var l := s.loops[i];
    var go := MayRun(s, i, ownerCheck);
    match l.pc
    case Exited => s
    case Top =>
      s.(loops := s.loops[i := l.(pc := if go then Sending else Exited)])
    case Sending =>
      s.(loops := s.loops[i := l.(pc := AfterSend(l.interval))], sends := s.sends + [Attempt(i, delivered)])
    case Waiting(left) =>
      if go then s.(loops := s.loops[i := l.(pc := if left > 1 then Waiting(left - 1) else Top)])
      else s.(loops := s.loops[i := l.(pc := Top)])
  }

  /** What can happen next: a Start (Start button), a Stop (Stop button,
      tray menu or Exit), or a step of one loop. */
  datatype Event = StartEvent(interval: int, readable: bool) | StopEvent | TickEvent(loop: nat, delivered: bool)

  function Step(s: State, e: Event, ownerCheck: bool): State {
    match e
    case StartEvent(n, ok) => Start(s, n, ok)
    case StopEvent => Stop(s)
    case TickEvent(i, d) => if i < |s.loops| then Tick(s, i, d, ownerCheck) else s
  }

  /** The state after a sequence of events, in order. */
  function Run(s: State, events: seq<Event>, ownerCheck: bool): State
    decreases |events|
  {
    if events == [] then s else Run(Step(s, events[0], ownerCheck), events[1..], ownerCheck)
  }

  predicate NoStart(events: seq<Event>) {
    forall k :: 0 <= k < |events| ==> !events[k].StartEvent?
  }

  /** How many of `sends` are by loop `j`. */
  function SendsBy(sends: seq<Attempt>, j: nat): (n: nat)
    ensures n <= |sends|
    ensures n == 0 <==> forall k :: 0 <= k < |sends| ==> sends[k].loop != j
    decreases |sends|
  {
    if sends == [] then 0
    else SendsBy(sends[..|sends| - 1], j) + (if sends[|sends| - 1].loop == j then 1 else 0)
  }

  /** One send still owed by loop `j`: 1 while it is in `Sending`. */
  function Pending(s: State, j: nat): nat {
    if j < |s.loops| && s.loops[j].pc == Sending then 1 else 0
  }

  /** Calling Start again while running changes nothing: one Start, one
      loop. */
  lemma StartIdempotent(s: State, first: int, ok1: bool, second: int, ok2: bool)
    ensures Start(Start(s, first, ok1), second, ok2) == Start(s, first, ok1)
    ensures |Start(Start(s, first, ok1), second, ok2).loops| <= |s.loops| + 1
  {
  }

  lemma {:induction false} SendsByAppend(a: seq<Attempt>, b: seq<Attempt>, j: nat)
    ensures SendsBy(a + b, j) == SendsBy(a, j) + SendsBy(b, j)
    decreases |b|
  {
    if b != [] {
      var b' := b[..|b| - 1];
      assert (a + b)[..|a + b| - 1] == a + b';
      SendsByAppend(a, b', j);
    } else {
      assert a + b == a;
    }
  }

  /** Sends only accumulate: every run extends the record it started from,
      and spawned loops are never forgotten. */
  lemma {:induction false} RunExtends(s: State, events: seq<Event>, ownerCheck: bool)
    ensures var r := Run(s, events, ownerCheck);
      |r.sends| >= |s.sends| && r.sends[..|s.sends|] == s.sends && |r.loops| >= |s.loops|
    decreases |events|
  {
    if events != [] {
      var s' := Step(s, events[0], ownerCheck);
      RunExtends(s', events[1..], ownerCheck);
      var r := Run(s', events[1..], ownerCheck);
      assert r.sends[..|s.sends|] == r.sends[..|s'.sends|][..|s.sends|];
    }
  }

  /** Splitting the sends made over two stretches of a run. */
  lemma SplitFresh(a: seq<Attempt>, b: seq<Attempt>, c: seq<Attempt>)
    requires |a| <= |b| <= |c| && b[..|a|] == a && c[..|b|] == b
    ensures c[..|a|] == a && c[|a|..] == b[|a|..] + c[|b|..]
  {
    assert c[..|a|] == c[..|b|][..|a|];
  }

  /** Loop `j` cannot pass its next test: an older loop under the owner
      check, or any loop once the flag is down and no Start comes. */
  predicate Barred(s: State, j: nat, ownerCheck: bool, noStart: bool) {
    (ownerCheck && j + 1 < |s.loops|) || (!s.running && noStart)
  }

  /** One step by a barred loop: at most the send it was already making. */
  lemma StepBarred(s: State, e: Event, ownerCheck: bool, j: nat)
    requires j < |s.loops| && Barred(s, j, ownerCheck, !e.StartEvent?)
    ensures var s' := Step(s, e, ownerCheck);
      |s'.sends| >= |s.sends| && s'.sends[..|s.sends|] == s.sends && |s'.loops| >= |s.loops|
      && SendsBy(s'.sends[|s.sends|..], j) + Pending(s', j) <= Pending(s, j)
      && Barred(s', j, ownerCheck, !e.StartEvent?)
  {
    var s' := Step(s, e, ownerCheck);
    assert s'.sends[..|s.sends|] == s.sends;
    match e
    case StartEvent(n, ok) =>
      assert s'.loops[j] == s.loops[j];
      assert s'.sends[|s.sends|..] == [];
    case StopEvent =>
      assert s'.sends[|s.sends|..] == [];
    case TickEvent(i, d) =>
      if i < |s.loops| && s.loops[i].pc == Sending {
        assert s'.sends[|s.sends|..] == [Attempt(i, d)];
        assert SendsBy([Attempt(i, d)], j) == if i == j then 1 else 0 by {
          assert [Attempt(i, d)][..0] == [];
        }
      } else {
        assert s'.sends[|s.sends|..] == [];
      }
  }

  /** A barred loop sends at most once more, and only if it was already in
      the middle of a send; a loop that stays in `Sending` has not sent. */
  lemma {:induction false} InFlightOnly(s: State, events: seq<Event>, ownerCheck: bool, j: nat)
    requires j < |s.loops| && Barred(s, j, ownerCheck, NoStart(events))
    ensures var r := Run(s, events, ownerCheck);
      |r.sends| >= |s.sends| && r.sends[..|s.sends|] == s.sends
      && SendsBy(r.sends[|s.sends|..], j) + Pending(r, j) <= Pending(s, j)
    decreases |events|
  {
    if events != [] {
      var s' := Step(s, events[0], ownerCheck);
      var rest := events[1..];
      assert NoStart(events) ==> NoStart(rest) by {
        if NoStart(events) {
          forall k | 0 <= k < |rest| ensures !rest[k].StartEvent? {
            assert rest[k] == events[k + 1];
          }
        }
      }
      assert NoStart(events) ==> !events[0].StartEvent?;
      StepBarred(s, events[0], ownerCheck, j);
      InFlightOnly(s', rest, ownerCheck, j);
      var r := Run(s', rest, ownerCheck);
      SplitFresh(s.sends, s'.sends, r.sends);
      SendsByAppend(s'.sends[|s.sends|..], r.sends[|s'.sends|..], j);
    }
  }

  /** Once the flag is down and until the next Start, no loop is spawned,
      the flag stays down, and every further send is the completion of one
      already under way when the flag went down. */
  lemma {:induction false} NoSendAfterStop(s: State, events: seq<Event>, ownerCheck: bool)
    requires !s.running && NoStart(events)
    ensures var r := Run(s, events, ownerCheck);
      && !r.running && |r.loops| == |s.loops|
      && |r.sends| >= |s.sends| && r.sends[..|s.sends|] == s.sends
      && forall k :: |s.sends| <= k < |r.sends| ==>
           r.sends[k].loop < |s.loops| && s.loops[r.sends[k].loop].pc == Sending
    decreases |events|
  {
    var r := Run(s, events, ownerCheck);
    if events != [] {
      var s' := Step(s, events[0], ownerCheck);
      var rest := events[1..];
      assert NoStart(rest) by {
        forall k | 0 <= k < |rest| ensures !rest[k].StartEvent? {
          assert rest[k] == events[k + 1];
        }
      }
      NoSendAfterStop(s', rest, ownerCheck);
      assert r.sends[..|s.sends|] == r.sends[..|s'.sends|][..|s.sends|];
    }
    forall k | |s.sends| <= k < |r.sends|
      ensures r.sends[k].loop < |s.loops| && s.loops[r.sends[k].loop].pc == Sending
    {
      var j := r.sends[k].loop;
      assert r.sends[|s.sends|..][k - |s.sends|] == r.sends[k];
      NewSendsByExisting(s, events, ownerCheck, k);
      InFlightOnly(s, events, ownerCheck, j);
    }
  }

  /** Without a Start, every new send is by a loop that already existed. */
  lemma {:induction false} NewSendsByExisting(s: State, events: seq<Event>, ownerCheck: bool, k: nat)
    requires NoStart(events)
    requires |s.sends| <= k < |Run(s, events, ownerCheck).sends|
    ensures Run(s, events, ownerCheck).sends[k].loop < |s.loops|
    decreases |events|
  {
    if events != [] {
      var s' := Step(s, events[0], ownerCheck);
      var rest := events[1..];
      assert NoStart(rest) by {
        forall k' | 0 <= k' < |rest| ensures !rest[k'].StartEvent? {
          assert rest[k'] == events[k' + 1];
        }
      }
      RunExtends(s', rest, ownerCheck);
      if k < |s'.sends| {
        assert Run(s, events, ownerCheck).sends[k] == s'.sends[k];
      } else {
        NewSendsByExisting(s', rest, ownerCheck, k);
      }
    }
  }

  /** No loop is in the middle of a send. */
  predicate Quiet(s: State) {
    forall j :: 0 <= j < |s.loops| ==> s.loops[j].pc != Sending
  }

  /** With the flag down and no send under way, nothing is sent until the
      next Start, and no loop starts one. */
  lemma {:induction false} QuietStop(s: State, events: seq<Event>, ownerCheck: bool)
    requires !s.running && Quiet(s) && NoStart(events)
    ensures Run(s, events, ownerCheck).sends == s.sends
    ensures Quiet(Run(s, events, ownerCheck))
    decreases |events|
  {
    if events != [] {
      var s' := Step(s, events[0], ownerCheck);
      var rest := events[1..];
      assert NoStart(rest) by {
        forall k | 0 <= k < |rest| ensures !rest[k].StartEvent? {
          assert rest[k] == events[k + 1];
        }
      }
      assert !s'.running && Quiet(s') && s'.sends == s.sends;
      QuietStop(s', rest, ownerCheck);
    }
  }

  /** A Stop followed by anything but a Start: each loop sends at most once
      more, and only if it was in the middle of a send; with none under way
      nothing more is sent. */
  lemma StopIsFinal(s: State, events: seq<Event>, ownerCheck: bool)
    requires NoStart(events)
    ensures var r := Run(Stop(s), events, ownerCheck);
      && |r.sends| >= |s.sends| && r.sends[..|s.sends|] == s.sends
      && (forall k :: |s.sends| <= k < |r.sends| ==>
            r.sends[k].loop < |s.loops| && s.loops[r.sends[k].loop].pc == Sending)
      && (forall j :: 0 <= j < |s.loops| ==> SendsBy(r.sends[|s.sends|..], j) <= Pending(s, j))
      && (Quiet(s) ==> r.sends == s.sends)
  {
    var r := Run(Stop(s), events, ownerCheck);
    NoSendAfterStop(Stop(s), events, ownerCheck);
    forall j | 0 <= j < |s.loops| ensures SendsBy(r.sends[|s.sends|..], j) <= Pending(s, j) {
      InFlightOnly(Stop(s), events, ownerCheck, j);
    }
    if Quiet(s) {
      QuietStop(Stop(s), events, ownerCheck);
    }
  }

  /** The network outcome is only logged: it changes neither the flag nor
      any loop's progress. */
  lemma OutcomeIgnored(s: State, i: nat, ownerCheck: bool)
    requires i < |s.loops|
    ensures Tick(s, i, true, ownerCheck).running == Tick(s, i, false, ownerCheck).running
    ensures Tick(s, i, true, ownerCheck).loops == Tick(s, i, false, ownerCheck).loops
  {
  }

  /** `n` steps of loop `i` in a row. */
  function Ticks(s: State, i: nat, delivered: bool, ownerCheck: bool, n: nat): (r: State)
    requires i < |s.loops|
    ensures |r.loops| == |s.loops| && r.running == s.running
    decreases n
  {
    if n == 0 then s else Ticks(Tick(s, i, delivered, ownerCheck), i, delivered, ownerCheck, n - 1)
  }

  /** With the flag down a loop leaves within three of its own steps (the
      send under way, the poll that breaks the wait, the `while` test),
      sending nothing but the attempt it was already making. */
  lemma StopHaltsLoop(s: State, i: nat, d: bool, ownerCheck: bool)
    requires !s.running && i < |s.loops|
    ensures Ticks(s, i, d, ownerCheck, 3).loops[i].pc == Exited
    ensures Ticks(s, i, d, ownerCheck, 3).sends
         == s.sends + (if s.loops[i].pc == Sending then [Attempt(i, d)] else [])
  {
    var s1 := Tick(s, i, d, ownerCheck);
    var s2 := Tick(s1, i, d, ownerCheck);
    var s3 := Tick(s2, i, d, ownerCheck);
    assert Ticks(s, i, d, ownerCheck, 3) == s3;
    assert s1.loops[i].pc != Sending && s2.loops[i].pc != Sending;
  }

  /** While the loop may run, a wait with `left` iterations to go takes
      exactly `left` steps and sends nothing. */
  lemma {:induction false} WaitCompletes(s: State, i: nat, d: bool, ownerCheck: bool, left: nat)
    requires i < |s.loops| && MayRun(s, i, ownerCheck)
    requires left >= 1 && s.loops[i].pc == Waiting(left)
    ensures Ticks(s, i, d, ownerCheck, left).loops[i] == s.loops[i].(pc := Top)
    ensures Ticks(s, i, d, ownerCheck, left).sends == s.sends
    decreases left
  {
    var s' := Tick(s, i, d, ownerCheck);
    if left > 1 {
      assert s'.loops[i].pc == Waiting(left - 1);
      assert MayRun(s', i, ownerCheck);
      WaitCompletes(s', i, d, ownerCheck, left - 1);
    }
  }

  /** While undisturbed, a loop passes its test, sends once and then waits
      `interval` seconds before its next `while` test: one send per
      `interval + 2` steps. */
  lemma PeriodicSend(s: State, i: nat, d: bool, ownerCheck: bool)
    requires i < |s.loops| && MayRun(s, i, ownerCheck)
    requires s.loops[i].pc == Top && s.loops[i].interval >= 1
    ensures Ticks(s, i, d, ownerCheck, s.loops[i].interval + 2).loops[i] == s.loops[i]
    ensures Ticks(s, i, d, ownerCheck, s.loops[i].interval + 2).sends == s.sends + [Attempt(i, d)]
  {
    var n := s.loops[i].interval;
    var s1 := Tick(s, i, d, ownerCheck);
    assert s1.loops[i].pc == Sending;
    var s2 := Tick(s1, i, d, ownerCheck);
    assert s2.loops[i].pc == Waiting(n);
    assert Ticks(s, i, d, ownerCheck, n + 2) == Ticks(s2, i, d, ownerCheck, n);
    WaitCompletes(s2, i, d, ownerCheck, n);
  }

  /** With the flag raised and every loop gone, nothing but a Stop changes
      anything: Start is ignored, so no beacon is ever sent again. */
  lemma {:induction false} Stalled(s: State, events: seq<Event>, ownerCheck: bool)
    requires s.running && forall j :: 0 <= j < |s.loops| ==> s.loops[j].pc == Exited
    requires forall k :: 0 <= k < |events| ==> !events[k].StopEvent?
    ensures Run(s, events, ownerCheck) == s
    decreases |events|
  {
    if events != [] {
      assert Step(s, events[0], ownerCheck) == s;
      var rest := events[1..];
      forall k | 0 <= k < |rest| ensures !rest[k].StopEvent? {
        assert rest[k] == events[k + 1];
      }
      Stalled(s, rest, ownerCheck);
    }
  }

  /** A Start from a stopped beacon whose start-up reads succeed: the new
      loop passes its first test and sends at its second step. */
  lemma FreshStartSends(s: State, interval: int, d: bool, ownerCheck: bool)
    requires !s.running
    ensures var t, i := Start(s, interval, true), |s.loops|;
      && Tick(Tick(t, i, d, ownerCheck), i, d, ownerCheck).sends == s.sends + [Attempt(i, d)]
      && Tick(Tick(t, i, d, ownerCheck), i, d, ownerCheck).loops[i] == Loop(AfterSend(interval), interval)
  {
    var t, i := Start(s, interval, true), |s.loops|;
    assert t.loops[i] == Loop(Top, interval) && MayRun(t, i, ownerCheck);
    assert Tick(t, i, d, ownerCheck).loops[i] == Loop(Sending, interval);
  }

  /** A Start from a stopped beacon with no live loop, whose start-up reads
      fail: the flag is up, no loop runs, and only a Stop can change that. */
  lemma UnreadableStartStalls(s: State, interval: int, events: seq<Event>, ownerCheck: bool)
    requires !s.running && forall j :: 0 <= j < |s.loops| ==> s.loops[j].pc == Exited
    requires forall k :: 0 <= k < |events| ==> !events[k].StopEvent?
    ensures Start(s, interval, false).running
    ensures Run(Start(s, interval, false), events, ownerCheck) == Start(s, interval, false)
  {
    var t := Start(s, interval, false);
    assert t.loops == s.loops + [Loop(Exited, interval)];
    Stalled(t, events, ownerCheck);
  }

  /** `Run` is the fold of `Step` along a known trace of states. */
  lemma {:induction false} RunTrace(s: State, e: seq<Event>, ownerCheck: bool, trace: seq<State>)
    requires |trace| == |e| + 1 && trace[0] == s
    requires forall k :: 0 <= k < |e| ==> trace[k + 1] == Step(trace[k], e[k], ownerCheck)
    ensures Run(s, e, ownerCheck) == trace[|e|]
    decreases |e|
  {
    if e != [] {
      var e', t' := e[1..], trace[1..];
      forall k | 0 <= k < |e'| ensures t'[k + 1] == Step(t'[k], e'[k], ownerCheck) {
        assert t'[k + 1] == trace[k + 2] && t'[k] == trace[k + 1] && e'[k] == e[k + 1];
      }
      RunTrace(trace[1], e', ownerCheck, t');
    }
  }

  /** Stop, then Start again while the old loop is in its wait. */
  function RestartEvents(): seq<Event> {
    [StartEvent(1, true), TickEvent(0, true), TickEvent(0, true), StopEvent, StartEvent(1, true),
     TickEvent(0, true), TickEvent(0, true), TickEvent(1, true), TickEvent(0, true), TickEvent(1, true)]
  }

  /** As written, the old loop sees the flag raised again and carries on:
      after the restart both loops send, so two beacons run side by side. */
  lemma RestartRace()
    ensures Run(Initial, RestartEvents(), false).sends
         == [Attempt(0, true), Attempt(0, true), Attempt(1, true)]
    ensures Run(Initial, RestartEvents(), false).loops == [Loop(Waiting(1), 1), Loop(Waiting(1), 1)]
  {
    var a, w := Attempt(0, true), Loop(Waiting(1), 1);
    var trace := [
      Initial,
      State(true, [Loop(Top, 1)], []),
      State(true, [Loop(Sending, 1)], []),
      State(true, [w], [a]),
      State(false, [w], [a]),
      State(true, [w, Loop(Top, 1)], [a]),
      State(true, [Loop(Top, 1), Loop(Top, 1)], [a]),
      State(true, [Loop(Sending, 1), Loop(Top, 1)], [a]),
      State(true, [Loop(Sending, 1), Loop(Sending, 1)], [a]),
      State(true, [w, Loop(Sending, 1)], [a, a]),
      State(true, [w, w], [a, a, Attempt(1, true)])];
    RunTrace(Initial, RestartEvents(), false, trace);
  }

  /** With the owner check the same events leave only the new loop: the old
      one breaks its wait and returns at its next `while` test without
      sending. */
  lemma RestartWithOwnerCheck()
    ensures Run(Initial, RestartEvents(), true).sends == [Attempt(0, true), Attempt(1, true)]
    ensures Run(Initial, RestartEvents(), true).loops == [Loop(Exited, 1), Loop(Waiting(1), 1)]
  {
    var a, w := Attempt(0, true), Loop(Waiting(1), 1);
    var trace := [
      Initial,
      State(true, [Loop(Top, 1)], []),
      State(true, [Loop(Sending, 1)], []),
      State(true, [w], [a]),
      State(false, [w], [a]),
      State(true, [w, Loop(Top, 1)], [a]),
      State(true, [Loop(Top, 1), Loop(Top, 1)], [a]),
      State(true, [Loop(Exited, 1), Loop(Top, 1)], [a]),
      State(true, [Loop(Exited, 1), Loop(Sending, 1)], [a]),
      State(true, [Loop(Exited, 1), Loop(Sending, 1)], [a]),
      State(true, [Loop(Exited, 1), w], [a, Attempt(1, true)])];
    RunTrace(Initial, RestartEvents(), true, trace);
  }

  /** With the owner check, a loop older than the newest one sends at most
      once more, and only if it was in the middle of a send: a Stop and
      Start retire the old loop whatever follows. */
  lemma OnlyNewestSends(s: State, events: seq<Event>)
    requires |s.loops| >= 1
    ensures var r := Run(s, events, true);
      && |r.sends| >= |s.sends| && r.sends[..|s.sends|] == s.sends
      && forall j :: 0 <= j < |s.loops| - 1 ==> SendsBy(r.sends[|s.sends|..], j) <= Pending(s, j)
  {
    RunExtends(s, events, true);
    var r := Run(s, events, true);
    forall j | 0 <= j < |s.loops| - 1 ensures SendsBy(r.sends[|s.sends|..], j) <= Pending(s, j) {
      InFlightOnly(s, events, true, j);
    }
  }
}
