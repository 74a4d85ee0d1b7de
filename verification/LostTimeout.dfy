/** A run in which a service's first expiry never reaches it as a Timeout: the timer that
    the server sets on a new service (server.cpp) runs out before the service was entered,
    and a second timer runs out before it was resumed from the ready list. */
module LostTimeout {
  import opened Agenda
  import opened Clock
  import opened Options
  import opened Scheduling
  import opened TimerWheel

  /** The server's timer 0: 201 slots of 10 ms, of which only the first two hold anything. */
  function Slots(epoch: Timespec, first: seq<Id>, second: seq<Id>): (w: Wheel<Id>)
    ensures |w.slots| == 201 && w.slots[0] == first && w.slots[1] == second
    ensures forall i :: 2 <= i < 201 ==> w.slots[i] == []
  {
    Wheel(epoch, Timespec(0, 10_000_000), 10, [first, second] + seq(199, _ => []))
  }

  lemma ServersTimer(t: Timespec)
    ensures Make<Id>(2, 10, t) == Slots(t, [], [])
  {
    assert 2 * 1000 % 0x1_0000_0000 / 10 + 1 == 201;
    assert Make<Id>(2, 10, t).slots == Slots(t, [], []).slots;
  }

  /** Ten milliseconds on, within the same second. */
  function Later(t: Timespec): Timespec { Timespec(t.sec, t.nsec + 10_000_000) }

  predicate Early(t: Timespec) { t.Normal() && Later(t).Normal() }

  /** Services 0 and 1 on descriptors 5 and 6. */
  function Two(first: Service, second: Service, w: Wheel<Id>, agenda: seq<Entry<Id>>, ready: seq<Id>, phase: Phase,
               last: Option<Id>, log: seq<Event>, reported: seq<Id>, served: seq<Id>): Sys
  {
    Sys(map[0 := first, 1 := second], 2, [w], map[5 := 0, 6 := 1], map[], ready, phase, Main, last, false,
        History(log, [agenda], reported, served, {}, {0, 1}))
  }

  const NEW0: Service := Service(5, None, None, false)
  const NEW1: Service := Service(6, None, None, false)
  const SUSPENDED0: Service := Service(5, Some(0), Some(Main), true)
  const SUSPENDED1: Service := Service(6, None, Some(Main), true)
  const NOTHING: Turn := Turn([], false)

  // ---- what the wheel does ------------------------------------------------------------

  lemma Inserted(t: Timespec, ms: int, x: nat)
    requires Early(t) && x < 2 && ms == if x == 0 then 1 else 10
    ensures var w := Slots(t, [], []);
            && w.Insert(t, ms, 0) == Some(if x == 0 then Slots(t, [0], []) else Slots(t, [], [0]))
            && w.At(w.Index(t, ms)) == (if x == 0 then t.Value() else Later(t).Value())
  {
    hide Wheel<Id>.Index;
    var w := Slots(t, [], []);
    Placed(w, t, ms, x);
    Linked(t, x);
  }

  lemma Placed(w: Wheel<Id>, t: Timespec, ms: int, x: nat)
    requires w.Valid() && t.Normal() && x < |w.slots| && w.epoch == t
    requires w.At(x) <= t.Value() + ms * 1_000_000 < w.At(x) + w.Granule() && w.At(0) <= w.At(x)
    ensures w.Index(t, ms) == x
  {
    hide Wheel<Id>.Index, Wheel<Id>.Insert;
    InsertOutcome(w, t, ms, 0);
    GridStep(w, x, |w.slots|);
    GridStep(w, x, w.Index(t, ms));
    GridStep(w, w.Index(t, ms), x);
  }

  lemma UnlinkEmpty(w: Wheel<Id>, o: Id)
    requires forall i :: 0 <= i < |w.slots| ==> w.slots[i] == []
    ensures w.Unlink(o) == w
  {
    assert w.Unlink(o).slots == w.slots;
  }

  lemma Linked(t: Timespec, x: nat)
    requires x < 2
    ensures var w := Slots(t, [], []);
            w.Unlink(0) == w && w.Push(x, 0) == if x == 0 then Slots(t, [0], []) else Slots(t, [], [0])
  {
    var w := Slots(t, [], []);
    assert forall i :: 0 <= i < |w.slots| ==> w.slots[i] == [];
    UnlinkEmpty(w, 0);
    var o: Id := 0;
    var pushed, want := w.Push(x, o).slots, if x == 0 then Slots(t, [o], []) else Slots(t, [], [o]);
    assert pushed[x] == w.slots[x] + [o] == [o];
    assert forall i :: 0 <= i < |pushed| ==> pushed[i] == want.slots[i];
    assert pushed == want.slots;
  }

  lemma FirstExpires(t: Timespec, now: Timespec)
    requires t.Normal() && now.Normal() && AtMost(t, now)
    ensures Slots(t, [0], []).Next(now) == (Some(0), Slots(t, [], []))
  {
    var one: seq<Id> := [0];
    assert one[1..] == [];
    assert Slots(t, one, []).Pop().slots == Slots(t, [], []).slots;
  }

  lemma NoneExpires(t: Timespec)
    requires Early(t)
    ensures Slots(t, [], [0]).Next(t) == (None, Slots(Later(t), [0], []))
  {
    var w := Slots(t, [], [0]);
    assert w.Tick().slots == Slots(Later(t), [0], []).slots;
    assert w.Tick() == Slots(Later(t), [0], []);
    assert w.Tick().Next(t) == (None, w.Tick());
  }

  lemma OneEntry(due: int)
    ensures var e: Entry<Id> := Entry(0, due);
            Earliest([e]) == 0 && Drop([e], 0) == [] && Cancel<Id>([], 0) == [] && Set<Id>([], 0, due) == [e]
  {
    assert Cancel<Id>([], 0) == [];
  }

  // ---- the run, from a fresh scheduler with the server's timer at any time t --------------------------------------

  /** A run leads from the fresh scheduler to s. */
  ghost predicate RunTo(t: Timespec, s: Sys) {
    exists steps :: Inv(Init([Make<Id>(2, 10, t)])) && s == RunAll(Init([Make<Id>(2, 10, t)]), steps)
  }

  lemma RunNext(t: Timespec, s: Sys, step: Step)
    requires Inv(s) && RunTo(t, s)
    ensures Inv(DoStep(s, step)) && RunTo(t, DoStep(s, step))
  {
    hide Make, Inv, DoStep;
    var s0 := Init([Make<Id>(2, 10, t)]);
    var steps :| Inv(s0) && s == RunAll(s0, steps);
    RunOneMore(s0, steps, step);
    StepKeeps(s, step);
  }

  lemma Begun(t: Timespec) returns (s: Sys)
    requires Early(t)
    ensures s == Init([Make<Id>(2, 10, t)]) == Init([Slots(t, [], [])]) && Inv(s) && RunTo(t, s)
  {
    var w := Slots(t, [], []);
    ServersTimer(t);
    s := Init([w]);
    MakeIsEmpty<Id>(2, 10, t);
    InitHolds([w]);
    assert s == RunAll(s, []);
    assert RunTo(t, s);
  }

  lemma Spawned(s0: Sys, t: Timespec) returns (s: Sys)
    requires s0 == Init([Slots(t, [], [])]) && Inv(s0) && RunTo(t, s0)
    ensures s == Two(NEW0, NEW1, Slots(t, [], []), [], [], Waiting, None, [], [], [])
    ensures Inv(s) && RunTo(t, s)
  {
    hide TimersOk, LiveOk, PassOk, LogOk, TimeoutsOk, RunTo;
    RunNext(t, s0, Setup(Spawn(5, true)));
    s := DoStep(s0, Setup(Spawn(5, true)));
    RunNext(t, s, Setup(Spawn(6, true)));
    s := DoStep(s, Setup(Spawn(6, true)));
  }

  /** set_timer on service 0, which has no timer. */
  lemma TimerSet(s: Sys, t: Timespec, ms: int, x: nat)
    requires Early(t) && x < 2 && ms == if x == 0 then 1 else 10
    requires TimersOk(s) && s.timers == [Slots(t, [], [])] && s.history.agendas == [[]]
    ensures var w, due := if x == 0 then Slots(t, [0], []) else Slots(t, [], [0]),
                          if x == 0 then t.Value() else Later(t).Value();
            DoSetTimer(s, 0, 0, t, ms)
            == s.(timers := [w], history := s.history.(agendas := [[Entry(0, due)]]))
  {
    hide TimersOk, Slots, Wheel<Id>.Insert, Wheel<Id>.At, Wheel<Id>.Index;
    Inserted(t, ms, x);
    OneEntry(if x == 0 then t.Value() else Later(t).Value());
  }

  /** The server's timer of 1 ms on the new service 0, and a pass that reports service 1. */
  lemma Reported(s0: Sys, t: Timespec) returns (s: Sys)
    requires Early(t) && s0 == Two(NEW0, NEW1, Slots(t, [], []), [], [], Waiting, None, [], [], [])
    requires Inv(s0) && RunTo(t, s0)
    ensures s == Two(NEW0, NEW1, Slots(t, [0], []), [Entry(0, t.Value())], [1], Expiring(0, t), None, [], [1], [])
    ensures Inv(s) && RunTo(t, s)
  {
    hide TimersOk, LiveOk, PassOk, LogOk, TimeoutsOk, RunTo, DoSetTimer;
    var step := Setup(SetTimer(0, 0, t, 1));
    TimerSet(s0, t, 1, 0);
    RunNext(t, s0, step);
    s := DoStep(s0, step);
    assert s == Two(NEW0, NEW1, Slots(t, [0], []), [Entry(0, t.Value())], [], Waiting, None, [], [], []);
    RunNext(t, s, Report([6], t));
    s := DoStep(s, Report([6], t));
  }

  /** The timer runs out before service 0 was ever entered: nothing is thrown.  Service 0
      sets another timer and waits. */
  lemma EnteredByExpiry(s0: Sys, t: Timespec) returns (s: Sys)
    requires s0 == Two(NEW0, NEW1, Slots(t, [0], []), [Entry(0, t.Value())], [1], Expiring(0, t), None, [], [1], [])
    requires Early(t) && Inv(s0) && RunTo(t, s0)
    ensures s == Two(SUSPENDED0, NEW1, Slots(t, [], [0]), [Entry(0, Later(t).Value())], [1], Expiring(0, t), Some(0),
                     [Fired(0, 0), Resumed(0), Back(0, false)], [1], [])
    ensures Inv(s) && RunTo(t, s)
  {
    hide TimersOk, LiveOk, PassOk, LogOk, TimeoutsOk, RunTo, DoSetTimer, DoFire;
    var act := SetTimer(0, 0, t, 10);
    var turn := Turn([act], false);
    RunNext(t, s0, Expire(turn));
    s := DoStep(s0, Expire(turn));
    FirstExpires(t, t);
    OneEntry(t.Value());
    PopKeepsTimers(s0, 0, t);
    var s1 := Two(NEW0, NEW1, Slots(t, [], []), [], [1], Expiring(0, t), None, [], [1], []);
    FirstPopped(s0, t, s1);
    assert s == DoFire(s1, 0, turn);
    FirstTurn(s1, t, turn);
  }

  lemma FirstPopped(s0: Sys, t: Timespec, s1: Sys)
    requires s0 == Two(NEW0, NEW1, Slots(t, [0], []), [Entry(0, t.Value())], [1], Expiring(0, t), None, [], [1], [])
    requires s1 == Two(NEW0, NEW1, Slots(t, [], []), [], [1], Expiring(0, t), None, [], [1], [])
    requires Early(t) && TimersOk(s0)
    ensures PopExpired(s0, 0, t) == (Some(0), s1)
  {
    hide Wheel<Id>.Next, Earliest, Drop;
    FirstExpires(t, t);
    OneEntry(t.Value());
    assert s0.timers[0 := Slots(t, [], [])] == s1.timers;
    assert s0.history.agendas[0 := []] == s1.history.agendas;
  }

  lemma FirstTurn(s0: Sys, t: Timespec, turn: Turn)
    requires s0 == Two(NEW0, NEW1, Slots(t, [], []), [], [1], Expiring(0, t), None, [], [1], [])
    requires Early(t) && TimersOk(s0) && turn == Turn([SetTimer(0, 0, t, 10)], false)
    ensures DoFire(s0, 0, turn)
            == Two(SUSPENDED0, NEW1, Slots(t, [], [0]), [Entry(0, Later(t).Value())], [1], Expiring(0, t), Some(0),
                   [Fired(0, 0), Resumed(0), Back(0, false)], [1], [])
  {
    hide DoSetTimer;
    var s1 := Enter(Log(s0.(live := s0.live[0 := NEW0.(timerx := Some(0))]), Fired(0, 0)), 0);
    assert s1.live == map[0 := SUSPENDED0, 1 := NEW1];
    assert TimersOk(s1) by {
      assert s1.live.Keys == s0.live.Keys;
    }
    TimerSet(s1, t, 10, 1);
    var s2 := DoAct(s1, turn.acts[0]);
    DoActKeepsTimers(s1, turn.acts[0]);
    assert turn.acts[1..] == [];
    assert DoActs(s1, turn.acts) == DoActs(s2, []) == s2;
  }

  /** The rest of the pass: service 1 takes its turn, service 0 does not. */
  lemma PassEnds(s0: Sys, t: Timespec) returns (s: Sys)
    requires s0 == Two(SUSPENDED0, NEW1, Slots(t, [], [0]), [Entry(0, Later(t).Value())], [1], Expiring(0, t), Some(0),
                       [Fired(0, 0), Resumed(0), Back(0, false)], [1], [])
    requires Early(t) && Inv(s0) && RunTo(t, s0)
    ensures s == Two(SUSPENDED0, SUSPENDED1, Slots(Later(t), [0], []), [Entry(0, Later(t).Value())], [], Draining,
                     Some(1), [Fired(0, 0), Resumed(0), Back(0, false), Resumed(1), Back(1, false)], [1], [1])
    ensures Inv(s) && RunTo(t, s)
  {
    hide TimersOk, LiveOk, PassOk, LogOk, TimeoutsOk, RunTo, DoDrain;
    NoneExpires(t);
    RunNext(t, s0, Expire(NOTHING));
    s := DoStep(s0, Expire(NOTHING));
    RunNext(t, s, Expire(NOTHING));
    s := DoStep(s, Expire(NOTHING));
    RunNext(t, s, Drain(NOTHING));
    FirstDrained(s, t);
    s := DoStep(s, Drain(NOTHING));
  }

  lemma FirstDrained(s0: Sys, t: Timespec)
    requires s0 == Two(SUSPENDED0, NEW1, Slots(Later(t), [0], []), [Entry(0, Later(t).Value())], [1], Draining, Some(0),
                       [Fired(0, 0), Resumed(0), Back(0, false)], [1], [])
    requires TimersOk(s0)
    ensures DoDrain(s0, NOTHING)
            == Two(SUSPENDED0, SUSPENDED1, Slots(Later(t), [0], []), [Entry(0, Later(t).Value())], [], Draining,
                   Some(1), [Fired(0, 0), Resumed(0), Back(0, false), Resumed(1), Back(1, false)], [1], [1])
  {
    hide TimersOk, Slots;
  }

  /** The next pass: service 1 is reported again. */
  lemma ReportedAgain(s0: Sys, t: Timespec) returns (s: Sys)
    requires s0 == Two(SUSPENDED0, SUSPENDED1, Slots(Later(t), [0], []), [Entry(0, Later(t).Value())], [], Draining,
                       Some(1), [Fired(0, 0), Resumed(0), Back(0, false), Resumed(1), Back(1, false)], [1], [1])
    requires Early(t) && Inv(s0) && RunTo(t, s0)
    ensures s == Two(SUSPENDED0, SUSPENDED1, Slots(Later(t), [0], []), [Entry(0, Later(t).Value())], [1],
                     Expiring(0, Later(t)), Some(1),
                     [Fired(0, 0), Resumed(0), Back(0, false), Resumed(1), Back(1, false)], [1], [])
    ensures Inv(s) && RunTo(t, s)
  {
    hide TimersOk, LiveOk, PassOk, LogOk, TimeoutsOk, RunTo, Later;
    RunNext(t, s0, Drain(NOTHING));
    s := DoStep(s0, Drain(NOTHING));
    assert Later(t).Normal();
    RunNext(t, s, Report([6], Later(t)));
    s := DoStep(s, Report([6], Later(t)));
  }

  /** Service 0's second timer runs out, and now a Timeout is thrown. */
  lemma SecondExpiry(s0: Sys, t: Timespec) returns (s: Sys)
    requires s0 == Two(SUSPENDED0, SUSPENDED1, Slots(Later(t), [0], []), [Entry(0, Later(t).Value())], [1],
                       Expiring(0, Later(t)), Some(1),
                       [Fired(0, 0), Resumed(0), Back(0, false), Resumed(1), Back(1, false)], [1], [])
    requires Early(t) && Inv(s0) && RunTo(t, s0)
    ensures s.history.log == [Fired(0, 0), Resumed(0), Back(0, false), Resumed(1), Back(1, false),
                              Fired(0, 0), Resumed(0), Raised(0, 0), Back(0, false)]
    ensures 0 in s.live && Inv(s) && RunTo(t, s)
  {
    hide TimersOk, LiveOk, PassOk, LogOk, TimeoutsOk, RunTo;
    FirstExpires(Later(t), Later(t));
    RunNext(t, s0, Expire(NOTHING));
    s := DoStep(s0, Expire(NOTHING));
  }

  /** Two expiries, one Timeout: the first is lost for good. */
  lemma TimeoutIsLost(t: Timespec) returns (s: Sys)
    requires Early(t)
    ensures RunTo(t, s) && 0 in s.live
    ensures Fires(s.history.log, 0) == 2 && Raises(s.history.log, 0) == 1
    ensures Lost(EntriesOf(s.history.log, 0))
  {
    s := Begun(t);
    s := Spawned(s, t);
    s := Reported(s, t);
    s := EnteredByExpiry(s, t);
    s := PassEnds(s, t);
    s := ReportedAgain(s, t);
    s := SecondExpiry(s, t);
    LogCounts(s.history.log);
  }

  lemma LogCounts(log: seq<Event>)
    requires log == [Fired(0, 0), Resumed(0), Back(0, false), Resumed(1), Back(1, false),
                     Fired(0, 0), Resumed(0), Raised(0, 0), Back(0, false)]
    ensures Fires(log, 0) == 2 && Raises(log, 0) == 1 && EntriesOf(log, 0) == [true, true]
  {
    for k := 0 to 9
      invariant Fires(log[..k], 0) == if k < 1 then 0 else if k < 6 then 1 else 2
      invariant Raises(log[..k], 0) == if k < 8 then 0 else 1
      invariant EntriesOf(log[..k], 0) == if k < 2 then [] else if k < 7 then [true] else [true, true]
    {
      assert log[..k + 1] == log[..k] + [log[k]];
      CountsOneMore(log[..k], log[k], 0);
    }
    assert log[..9] == log;
  }
}
