/** scheduler.cpp in place: one pass of Scheduler::run over the scheduler's own fields,
    proved to be a run of the step system. */
module Schedulers {
  import opened Agenda
  import opened Clock
  import opened Options
  import opened Scheduling
  import opened TimerWheel

  /** The timers set have deadlines a granule or more after `now`. */
  ghost predicate PatientActs(acts: seq<Act>, timers: seq<Wheel<Id>>, now: Timespec) {
    forall a :: a in acts && a.SetTimer? && a.timerx < |timers| ==>
      a.at.Normal() && a.at.Value() + a.ms * 1_000_000 >= now.Value() + timers[a.timerx].Granule()
  }

  ghost predicate SameShape(ts: seq<Wheel<Id>>, us: seq<Wheel<Id>>) {
    |us| == |ts| && forall k :: 0 <= k < |ts| ==> us[k].incrMs == ts[k].incrMs && |us[k].slots| == |ts[k].slots|
  }

  /** Wheel k has no more to serve than before: same epoch, no longer first slot. */
  ghost predicate NoFuller(ts: seq<Wheel<Id>>, us: seq<Wheel<Id>>, k: nat)
    requires k < |ts| && |us| == |ts|
  {
    us[k].epoch == ts[k].epoch && |us[k].slots| == |ts[k].slots| >= 1 && |us[k].slots[0]| <= |ts[k].slots[0]|
  }

  lemma ActKeepsShape(s: Sys, act: Act)
    requires TimersOk(s)
    ensures SameShape(s.timers, DoAct(s, act).timers)
  {
    hide AgendasOk, SetOnce, OnGrid, DueAt, Wheel<Id>.Index;
  }

  lemma {:induction false} ActsKeepShape(s: Sys, acts: seq<Act>)
    requires TimersOk(s)
    ensures SameShape(s.timers, DoActs(s, acts).timers)
    decreases |acts|
  {
    hide TimersOk, DoAct;
    if acts != [] {
      ActKeepsShape(s, acts[0]);
      DoActKeepsTimers(s, acts[0]);
      ActsKeepShape(DoAct(s, acts[0]), acts[1..]);
    }
  }

  lemma {:induction false} NextShrinks(w: Wheel<Id>, now: Timespec)
    requires w.Valid() && now.Normal() && w.Next(now).0.Some?
    ensures var w' := w.Next(now).1;
            && w'.epoch.Value() <= now.Value()
            && (w'.Lag(now) < w.Lag(now) || (w'.epoch == w.epoch && |w'.slots[0]| < |w.slots[0]|))
    decreases w.Lag(now)
  {
    AtMostIsOrder(w.epoch, now);
    PlusIsExact(w.epoch, w.incr);
    if w.slots[0] == [] {
      NextShrinks(w.Tick(), now);
    }
  }

  lemma UnlinkSpares(ts: seq<Wheel<Id>>, o: Id, k: nat)
    requires k < |ts| && |ts[k].slots| >= 1
    ensures SameShape(ts, UnlinkAll(ts, o)) && NoFuller(ts, UnlinkAll(ts, o), k)
  {
    WithoutMembers(ts[k].slots[0], o);
  }

  lemma PatientIndex(w: Wheel<Id>, r: Rearm<Id>, now: Timespec)
    requires w.Valid() && |w.slots| >= 2 && r.at.Normal() && w.epoch.Value() <= now.Value()
    requires r.at.Value() + r.ms * 1_000_000 >= now.Value() + w.Granule()
    ensures w.Index(r.at, r.ms) >= 1
  {
    DelayIsExact(w, r.at, r.ms);
    assert w.At(0) == w.epoch.Value();
  }

  lemma ActSpares(s: Sys, act: Act, k: nat, now: Timespec)
    requires TimersOk(s) && k < |s.timers| && |s.timers[k].slots| >= 2 && s.timers[k].epoch.Value() <= now.Value()
    requires PatientActs([act], s.timers, now)
    ensures SameShape(s.timers, DoAct(s, act).timers) && NoFuller(s.timers, DoAct(s, act).timers, k)
  {
    hide AgendasOk, SetOnce, OnGrid, DueAt, Wheel<Id>.Index;
    match act
    case SetTimer(timerx, o, at, ms) =>
      if o in s.live && timerx < |s.timers| {
        assert act in [act];
        UnlinkSpares(s.timers, o, k);
        if timerx == k {
          var r := Rearm(at, ms, o);
          PatientIndex(s.timers[k], r, now);
        }
      }
    case Spawn(_, _) =>
  }

  lemma {:induction false} ActsSpare(s: Sys, acts: seq<Act>, k: nat, now: Timespec)
    requires TimersOk(s) && k < |s.timers| && |s.timers[k].slots| >= 2 && s.timers[k].epoch.Value() <= now.Value()
    requires PatientActs(acts, s.timers, now)
    ensures SameShape(s.timers, DoActs(s, acts).timers) && NoFuller(s.timers, DoActs(s, acts).timers, k)
    decreases |acts|
  {
    if acts != [] {
      var act, s1 := acts[0], DoAct(s, acts[0]);
      assert forall a :: a in [act] ==> a in acts;
      ActSpares(s, act, k, now);
      DoActKeepsTimers(s, act);
      assert forall a :: a in acts[1..] ==> a in acts;
      assert PatientActs(acts[1..], s1.timers, now);
      ActsSpare(s1, acts[1..], k, now);
    }
  }

  lemma FireKeepsShape(s: Sys, id: Id, turn: Turn)
    requires Idle(s) && id in s.live && s.phase.Expiring?
    ensures SameShape(s.timers, DoFire(s, id, turn).timers)
  {
    hide LiveOk, LogOk, TimeoutsOk, EntryEvents;
    var expiry := Some(s.phase.timerx);
    var s1 := EnterBy(s, id, expiry);
    EnterIsEntry(s, id, expiry);
    EnterKeeps(s, id, expiry);
    ActsKeepShape(s1, turn.acts);
    ActsKeepMid(s1, id, turn.acts);
    var s2 := DoActs(s1, turn.acts);
    assert DoFire(s, id, turn).timers == if turn.exits then UnlinkAll(s2.timers, id) else s2.timers;
  }

  /** A callback in the timer phase leaves its wheel no fuller than it found it. */
  lemma FireSpares(s: Sys, id: Id, turn: Turn)
    requires Idle(s) && id in s.live && s.phase.Expiring? && s.phase.timerx < |s.timers|
    requires var w := s.timers[s.phase.timerx]; |w.slots| >= 2 && w.epoch.Value() <= s.phase.now.Value()
    requires PatientActs(turn.acts, s.timers, s.phase.now)
    ensures SameShape(s.timers, DoFire(s, id, turn).timers)
    ensures NoFuller(s.timers, DoFire(s, id, turn).timers, s.phase.timerx)
  {
    hide LiveOk, LogOk, TimeoutsOk, EntryEvents;
    var k, expiry := s.phase.timerx, Some(s.phase.timerx);
    var s1 := EnterBy(s, id, expiry);
    EnterIsEntry(s, id, expiry);
    EnterKeeps(s, id, expiry);
    ActsSpare(s1, turn.acts, k, s.phase.now);
    ActsKeepMid(s1, id, turn.acts);
    var s2 := DoActs(s1, turn.acts);
    UnlinkSpares(s2.timers, id, k);
    assert DoFire(s, id, turn).timers == if turn.exits then UnlinkAll(s2.timers, id) else s2.timers;
  }

  class Scheduler {
    var live: map<Id, Service>
    var nextId: Id
    var timers: seq<Wheel<Id>>
    var registry: map<int, Id>
    var fdset: map<int, Id>
    var serviceList: seq<Id>
    var running: Ctx
    var caller: Option<Id>
    var aborted: bool
    var capacity: nat  // of the vector of timers
    ghost var phase: Phase
    ghost var history: History

    ghost function State(): Sys
      reads this
    {
      Sys(live, nextId, timers, registry, fdset, serviceList, phase, running, caller, aborted, history)
    }

    constructor ()
      ensures State() == Init([]) && Inv(State()) && capacity == 8
    {
      live, nextId, timers, registry, fdset, serviceList := map[], 0, [], map[], map[], [];
      running, caller, aborted, capacity, phase := Main, None, false, 8, Waiting;
      history := History([], [], [], [], {}, {});
      new;
      assert history.agendas == seq(0, _ => []);
      InitHolds([]);
    }

    /** timers.emplace_back: the new timer's index.  A vector that is full moves to a larger
        block, and EvTimer's copy constructor leaves the copies without their lists: every
        pending timer is lost. */
    method AddTimer(secsMax: nat, granularityMs: int, now: Timespec) returns (timerx: nat)
      requires Inv(State()) && granularityMs > 0 && now.Normal()
      modifies this`timers, this`capacity, this`history
      ensures Inv(State()) && timerx == |old(timers)| < capacity
      ensures timers == (if timerx < old(capacity) then old(timers) else CopyAll(old(timers)))
                        + [Make(secsMax, granularityMs, now)]
    {
      hide TimersOk, LiveOk, PassOk, LogOk, TimeoutsOk, Represents, Make;
      if |timers| >= capacity {
        CopiesAreEmpty(State());
        history := history.(agendas := seq(|timers|, _ => []));
        timers := CopyAll(timers);
        capacity := 2 * |timers| + 1;
      }
      MakeIsEmpty<Id>(secsMax, granularityMs, now);
      OneMoreTimer(State(), Make(secsMax, granularityMs, now));
      timerx := |timers|;
      timers := timers + [Make(secsMax, granularityMs, now)];
      history := history.(agendas := history.agendas + [[]]);
    }

    /** EvTimer's copy constructor. */
    static function Copy(w: Wheel<Id>): Wheel<Id> {
      w.(slots := seq(|w.slots|, _ => []))
    }

    static function CopyAll(ts: seq<Wheel<Id>>): seq<Wheel<Id>> {
      seq(|ts|, k requires 0 <= k < |ts| => Copy(ts[k]))
    }

    static lemma CopiesAreEmpty(s: Sys)
      requires Inv(s)
      ensures Inv(s.(timers := CopyAll(s.timers), history := s.history.(agendas := seq(|s.timers|, _ => []))))
      ensures |CopyAll(s.timers)| == |s.timers|
      ensures forall k :: 0 <= k < |s.timers| ==>
                var w, c := s.timers[k], CopyAll(s.timers)[k];
                && c.epoch == w.epoch && c.incr == w.incr && c.incrMs == w.incrMs && |c.slots| == |w.slots|
                && forall x :: 0 <= x < |c.slots| ==> c.slots[x] == []
    {
      var s' := s.(timers := CopyAll(s.timers), history := s.history.(agendas := seq(|s.timers|, _ => [])));
      forall k | 0 <= k < |s.timers| ensures Represents(s'.timers[k], []) {
        assert Represents(s.timers[k], s.history.agendas[k]);
      }
      assert TimersOk(s') && LiveOk(s') && PassOk(s');
    }

    static lemma OneMoreTimer(s: Sys, w: Wheel<Id>)
      requires Inv(s) && Represents(w, [])
      ensures Inv(s.(timers := s.timers + [w], history := s.history.(agendas := s.history.agendas + [[]])))
    {
      var s' := s.(timers := s.timers + [w], history := s.history.(agendas := s.history.agendas + [[]]));
      OneMoreWheel(s.timers, s.history.agendas, w, s.live.Keys);
      assert LiveOk(s') && PassOk(s');
    }

    static lemma OneMoreWheel(ts: seq<Wheel<Id>>, agendas: seq<seq<Entry<Id>>>, w: Wheel<Id>, live: set<Id>)
      requires |agendas| == |ts| && AgendasOk(agendas, live) && Represents(w, [])
      requires forall k :: 0 <= k < |ts| ==> Represents(ts[k], agendas[k])
      ensures AgendasOk(agendas + [[]], live)
      ensures forall k :: 0 <= k < |ts| + 1 ==> Represents((ts + [w])[k], (agendas + [[]])[k])
    {
      forall k | 0 <= k < |ts| + 1 ensures Represents((ts + [w])[k], (agendas + [[]])[k]) {
        if k < |ts| {
          assert Represents(ts[k], agendas[k]);
        }
      }
    }

    method SetTimer(timerx: nat, svc: Id, at: Timespec, ms: int)
      requires TimersOk(State())
      modifies this`timers, this`aborted, this`history
      ensures State() == DoSetTimer(old(State()), timerx, svc, at, ms)
    {
      if timerx >= |timers| {
        aborted := true;
        return;
      }
      var inserted := timers[timerx].Insert(at, ms, svc);
      if inserted.None? {
        aborted := true;
        return;
      }
      ghost var due := timers[timerx].At(timers[timerx].Index(at, ms));
      history := history.(agendas := CancelAll(history.agendas, svc)[timerx := Set(history.agendas[timerx], svc, due)]);
      timers := UnlinkAll(timers, svc)[timerx := inserted.value];
    }

    /** new Service, then add(). */
    method Spawn(fd: int, added: bool)
      modifies this`live, this`nextId, this`registry, this`history
      ensures State() == DoSpawn(old(State()), fd, added)
    {
      live := live[nextId := Service(fd, None, None, false)];
      if added {
        registry := registry[fd := nextId];
        history := history.(added := history.added + {nextId});
      }
      nextId := nextId + 1;
    }

    method Del(fd: int) returns (found: bool)
      modifies this`fdset, this`registry
      ensures (found, State()) == DoDel(old(State()), fd)
    {
      found := fd in fdset;
      if found {
        fdset := fdset - {fd};
        registry := registry - {fd};
      }
    }

    /** delete &service: its hooks leave the lists they are in. */
    method Delete(svc: Id)
      modifies this`live, this`serviceList, this`timers, this`history
      ensures State() == DoDelete(old(State()), svc)
    {
      live := live - {svc};
      serviceList := Without(serviceList, svc);
      timers := UnlinkAll(timers, svc);
      history := history.(
        agendas := CancelAll(history.agendas, svc),
        killed := if phase.Expiring? then history.killed + {svc} else history.killed,
        log := history.log + [Deleted(svc)]);
    }

    /** yield(service) and what the scheduler does when it returns: the service runs its
        turn and gives control back, with null if it has terminated. */
    method Resume(svc: Id, turn: Turn)
      requires Idle(State()) && svc in live
      modifies this
      ensures State() == Scheduling.Resume(old(State()), svc, turn)
    {
      EnterKeeps(State(), svc, None);
      EnterAndRun(svc, turn);
    }

    method EnterAndRun(svc: Id, turn: Turn)
      requires svc in live && Mid(Enter(State(), svc), svc) && TimersOk(State())
      modifies this
      ensures State() == Scheduling.Resume(old(State()), svc, turn)
    {
      EnterService(svc);
      ActsKeepMid(State(), svc, turn.acts);
      PerformAll(svc, turn.acts);
      GiveBack(svc, turn.exits);
    }

    /** to.caller = this, the jump, and the end of Service::yield in the service. */
    method EnterService(svc: Id)
      requires svc in live
      modifies this`live, this`running, this`history
      ensures State() == Enter(old(State()), svc)
    {
      var was := live[svc];
      live := live[svc := was.(caller := Some(Main), started := true)];
      running := Running(svc);
      history := history.(log := history.log + [Resumed(svc)]);
      if was.started && was.timerx.Some? {
        live := live[svc := live[svc].(timerx := None)];
        history := history.(log := history.log + [Raised(svc, was.timerx.value)]);
      }
    }

    method PerformAll(svc: Id, acts: seq<Act>)
      requires Mid(State(), svc)
      modifies this`live, this`nextId, this`registry, this`timers, this`aborted, this`history
      ensures State() == DoActs(old(State()), acts)
    {
      ghost var s := State();
      for i := 0 to |acts|
        invariant Mid(State(), svc) && DoActs(s, acts) == DoActs(State(), acts[i..])
      {
        assert acts[i..][0] == acts[i] && acts[i..][1..] == acts[i + 1..];
        OneActKeepsMid(State(), svc, acts[i]);
        Perform(acts[i]);
      }
      assert acts[|acts|..] == [];
    }

    static lemma OneActKeepsMid(s: Sys, svc: Id, act: Act)
      requires Mid(s, svc)
      ensures Mid(DoAct(s, act), svc)
    {
      ActIsLocal(s, act);
      SpawnsKeepLog(s, DoAct(s, act));
    }

    method Perform(act: Act)
      requires TimersOk(State())
      modifies this`live, this`nextId, this`registry, this`timers, this`aborted, this`history
      ensures State() == DoAct(old(State()), act)
    {
      match act {
        case Spawn(fd, added) =>
          if !SocketInUse(fd) {
            Spawn(fd, added);
          }
        case SetTimer(timerx, target, at, ms) =>
          if target in live {
            SetTimer(timerx, target, at, ms);
          }
      }
    }

    predicate SocketInUse(fd: int)
      reads this
      ensures SocketInUse(fd) <==> SocketOpen(State(), fd)
    {
      exists id :: id in live && live[id].sock == fd
    }

    /** The end of a turn: exit_coroutine or yield. */
    method GiveBack(svc: Id, exits: bool)
      requires Mid(State(), svc)
      modifies this
      ensures State() == Leave(old(State()), svc, exits)
    {
      hide LogOk, TimeoutsOk, TimersOk;
      if exits {
        var sock := live[svc].sock;
        var found := Del(sock);
        registry := registry - {sock};
      }
      running := live[svc].caller.value;
      caller := Some(svc);
      history := history.(log := history.log + [Back(svc, exits)]);
      if exits {
        Delete(svc);
      }
    }

    /** The lambda given to expire. */
    method TimerCallback(svc: Id, timerx: nat, turn: Turn)
      requires Idle(State()) && svc in live && phase.Expiring? && phase.timerx == timerx
      modifies this
      ensures State() == DoFire(old(State()), svc, turn)
    {
      ghost var s := State();
      // service.timeout(timerx)
      live := live[svc := live[svc].(timerx := Some(timerx))];
      history := history.(log := history.log + [Fired(svc, timerx)]);
      ResumeFired(s, svc, turn);
    }

    /** The callback's yield to the service; s is the state the callback was called in. */
    method ResumeFired(ghost s: Sys, svc: Id, turn: Turn)
      requires Idle(s) && svc in s.live && s.phase.Expiring?
      requires var was := s.live[svc];
               State() == Log(s.(live := s.live[svc := was.(timerx := Some(s.phase.timerx))]),
                              Fired(svc, s.phase.timerx))
      modifies this
      ensures State() == DoFire(s, svc, turn)
    {
      EnterKeeps(s, svc, Some(s.phase.timerx));
      EnterAndRun(svc, turn);
    }

    /** One round of expire's loops for a timer: the next expired service is taken out and
        called back; `more` is false when there is none. */
    method ExpireOne(timerx: nat, now: Timespec, turn: Turn) returns (more: bool)
      requires Inv(State()) && phase == Expiring(timerx, now) && timerx < |timers| && now.Normal()
      modifies this
      ensures Inv(State()) && State() == DoExpire(old(State()), turn)
      ensures phase == Expiring(if more then timerx else timerx + 1, now)
      ensures |timers| == |old(timers)| == |history.agendas| && history.reported == old(history.reported)
      ensures more <==> !AllLater(old(history.agendas)[timerx], now.Value())
      ensures !more ==> AllLater(history.agendas[timerx], now.Value())
    {
      ghost var s := State();
      PopsEarliestDue(s, timerx, now);
      LeavesNothingDue(s, turn);
      ghost var (next, s1) := PopExpired(s, timerx, now);
      ExpireFacts(s, timerx, now, turn, next, s1);
      ExpireKeeps(s, turn);
      more := PopAndCall(timerx, now, turn);
      assert State() == DoExpire(s, turn);
    }

    method PopAndCall(timerx: nat, now: Timespec, turn: Turn) returns (more: bool)
      requires TimersOk(State()) && phase == Expiring(timerx, now) && timerx < |timers| && now.Normal()
      requires var (next, s1) := PopExpired(State(), timerx, now); next.Some? ==> Idle(s1) && next.value in s1.live
      modifies this
      ensures State() == DoExpire(old(State()), turn) && more == PopExpired(old(State()), timerx, now).0.Some?
    {
      var next := PopNext(timerx, now);
      more := next.Some?;
      if more {
        TimerCallback(next.value, timerx, turn);
      } else {
        phase := Expiring(timerx + 1, now);
      }
    }

    /** expire's loops up to the next expired service, which is taken out of its slot. */
    method PopNext(timerx: nat, now: Timespec) returns (next: Option<Id>)
      requires TimersOk(State()) && timerx < |timers| && now.Normal()
      modifies this`timers, this`history
      ensures (next, State()) == PopExpired(old(State()), timerx, now)
      ensures next.None? <==> AllLater(old(history.agendas[timerx]), now.Value())
      ensures next.Some? ==>
                var a := old(history.agendas[timerx]);
                a != [] && a[Earliest(a)].obj == next.value && a[Earliest(a)].due <= now.Value()
    {
      PopsEarliestDue(State(), timerx, now);
      ghost var agenda := history.agendas[timerx];
      var wheel;
      next, wheel := TakeNext(timers[timerx], now);
      timers := timers[timerx := wheel];
      if next.Some? && agenda != [] {
        history := history.(agendas := history.agendas[timerx := Drop(agenda, Earliest(agenda))]);
      }
    }

    static method TakeNext(w: Wheel<Id>, now: Timespec) returns (next: Option<Id>, wheel: Wheel<Id>)
      requires w.Valid() && now.Normal()
      ensures (next, wheel) == w.Next(now)
    {
      next, wheel := None, w;
      while AtMost(wheel.epoch, now) && wheel.slots[0] == []
        invariant wheel.Valid() && wheel.Next(now) == w.Next(now)
        decreases wheel.Lag(now)
      {
        AtMostIsOrder(wheel.epoch, now);
        PlusIsExact(wheel.epoch, wheel.incr);
        wheel := wheel.Tick();
      }
      if AtMost(wheel.epoch, now) {
        next, wheel := Some(wheel.slots[0][0]), wheel.Pop();
      }
    }

    static lemma ExpireFacts(s: Sys, k: nat, now: Timespec, turn: Turn, next: Option<Id>, s1: Sys)
      requires Inv(s) && s.phase == Expiring(k, now) && k < |s.timers| && now.Normal()
      requires (next, s1) == PopExpired(s, k, now)
      ensures next.Some? ==> Idle(s1) && next.value in s1.live
      ensures ExpiredTo(s, k, now, next.Some?, DoExpire(s, turn))
    {
      hide LiveOk, PassOk, LogOk, TimeoutsOk, DoFire, AgendasOk, Represents;
      PopKeepsTimers(s, k, now);
      assert SameShape(s.timers, s1.timers);
      if next.Some? {
        PoppedKeeps(s, k, now);
        FireKeeps(s1, next.value, turn);
        FireKeepsShape(s1, next.value, turn);
        FiredTo(s, k, now, turn, next.value, s1, DoFire(s1, next.value, turn));
      } else {
        assert DoExpire(s, turn) == s1.(phase := Expiring(k + 1, now));
      }
    }

    static lemma FiredTo(s: Sys, k: nat, now: Timespec, turn: Turn, id: Id, s1: Sys, r: Sys)
      requires TimersOk(s) && s.phase == Expiring(k, now) && k < |s.timers| && now.Normal()
      requires (Some(id), s1) == PopExpired(s, k, now) && TimersOk(s1) && id in s1.live && s1.phase.Expiring?
      requires r == DoFire(s1, id, turn)
      requires r.phase == s.phase && r.history.reported == s.history.reported && SameShape(s.timers, r.timers)
      ensures ExpiredTo(s, k, now, true, DoExpire(s, turn))
    {
    }

    /** Where one round of expire's loops leaves the timer phase. */
    static ghost predicate ExpiredTo(s: Sys, k: nat, now: Timespec, more: bool, r: Sys)
      requires k < |s.timers|
    {
      && r.history.reported == s.history.reported && SameShape(s.timers, r.timers)
      && r.phase == Expiring(if more then k else k + 1, now)
    }

    /** expire for one timer, with the scheduler's callback: nothing is due in the wheel when
        it returns. */
    method ExpireTimer(timerx: nat, now: Timespec, script: nat -> Turn, n0: nat, ghost k0: nat, ghost s0: Sys,
                       ghost steps0: seq<Step>)
      returns (n: nat, ghost k: nat, ghost steps: seq<Step>)
      requires Inv(s0) && Inv(State()) && State() == RunAll(s0, steps0) && Scripted(steps0, script)
      requires phase == Expiring(timerx, now) && timerx < |timers| && now.Normal()
      requires TimersEnd(State(), script, n0, k0)
      modifies this
      ensures Inv(State()) && State() == RunAll(s0, steps) && Scripted(steps, script)
      ensures phase == Expiring(timerx + 1, now) && TimersEnd(State(), script, n, k)
      ensures |timers| == |old(timers)| && history.reported == old(history.reported)
      ensures timerx < |history.agendas| && AllLater(history.agendas[timerx], now.Value())
    {
      hide TimersOk, LiveOk, PassOk, LogOk, TimeoutsOk, DoExpire, AllLater;
      n, k, steps := n0, k0, steps0;
      var more := true;
      while more
        invariant Inv(State()) && State() == RunAll(s0, steps) && Scripted(steps, script)
        invariant phase == Expiring(if more then timerx else timerx + 1, now) && TimersEnd(State(), script, n, k)
        invariant |timers| == |old(timers)| && history.reported == old(history.reported)
        invariant !more ==> timerx < |history.agendas| && AllLater(history.agendas[timerx], now.Value())
        decreases more, k
      {
        RunOneMore(s0, steps, Expire(script(n)));
        more := ExpireOne(timerx, now, script(n));
        steps := steps + [Expire(script(n))];
        n, k := n + 1, k - 1;
      }
    }

    /** The timer phase of a pass. */
    method ExpireTimers(now: Timespec, script: nat -> Turn, ghost k0: nat, ghost s0: Sys)
      returns (ghost steps: seq<Step>)
      requires Inv(s0) && State() == s0
      requires phase == Expiring(0, now) && now.Normal() && TimersEnd(State(), script, 0, k0)
      modifies this
      ensures Inv(State()) && State() == RunAll(s0, steps) && Scripted(steps, script) && phase == Draining
      ensures history.reported == old(history.reported)
    {
      hide TimersOk, LiveOk, PassOk, LogOk, TimeoutsOk, TimersEnd, AllLater;
      steps := [];
      var n := 0;
      ghost var k := k0;
      for timerx := 0 to |timers|
        invariant Inv(State()) && State() == RunAll(s0, steps) && phase == Expiring(timerx, now)
        invariant TimersEnd(State(), script, n, k) && Scripted(steps, script)
        invariant |timers| == |old(timers)| && history.reported == old(history.reported)
      {
        n, k, steps := ExpireTimer(timerx, now, script, n, k, s0, steps);
      }
      TimersDone(s0, steps, State());
      steps := steps + [Expire(Turn([], false))];
      phase := Draining;
    }

    /** What was due at the start of the timer phase has been called back for. */
    static ghost predicate DueCalledBack(s: Sys, log: seq<Event>, script: nat -> Turn, now: Timespec) {
      forall k, e :: 0 <= k < |s.timers| && k < |s.history.agendas| && e in s.history.agendas[k]
                     && e.due <= now.Value() && Spares(script, e.obj) ==>
        CalledBack(log, |s.history.log|, e.obj, k)
    }

    static lemma PhaseCallsBack(s: Sys, steps: seq<Step>, script: nat -> Turn)
      requires Inv(s) && s.phase.Expiring? && s.phase.timerx == 0
      requires Scripted(steps, script) && RunAll(s, steps).phase == Draining
      ensures DueCalledBack(s, RunAll(s, steps).history.log, script, s.phase.now)
    {
      hide TimersOk, LiveOk, PassOk, LogOk, TimeoutsOk, Scripted, Spares, CalledBack, SparedUntilCalled;
      forall k, e | 0 <= k < |s.timers| && k < |s.history.agendas| && e in s.history.agendas[k]
                    && e.due <= s.phase.now.Value() && Spares(script, e.obj)
        ensures CalledBack(RunAll(s, steps).history.log, |s.history.log|, e.obj, k)
      {
        ScriptSpares(s, steps, script, e.obj);
        DueIsCalledBack(s, steps, k, e);
      }
    }

    static lemma StillCalledBack(s: Sys, log: seq<Event>, longer: seq<Event>, script: nat -> Turn, now: Timespec)
      requires DueCalledBack(s, log, script, now) && log <= longer
      ensures DueCalledBack(s, longer, script, now)
    {
      forall k, e | 0 <= k < |s.timers| && k < |s.history.agendas| && e in s.history.agendas[k]
                    && e.due <= now.Value() && Spares(script, e.obj)
        ensures CalledBack(longer, |s.history.log|, e.obj, k)
      {
        assert CalledBack(log, |s.history.log|, e.obj, k);
        var j :| |s.history.log| <= j < |log| && log[j] == Fired(e.obj, k);
        assert longer[j] == Fired(e.obj, k);
      }
    }

    static lemma TimersDone(s0: Sys, steps: seq<Step>, s: Sys)
      requires Inv(s0) && Inv(s) && s == RunAll(s0, steps)
      requires s.phase.Expiring? && s.phase.timerx == |s.timers| && s.phase.now.Normal()
      ensures Inv(s.(phase := Draining)) && s.(phase := Draining) == RunAll(s0, steps + [Expire(Turn([], false))])
    {
      hide TimersOk, LiveOk, PassOk, LogOk, TimeoutsOk, DoFire;
      RunOneMore(s0, steps, Expire(Turn([], false)));
      ExpireKeeps(s, Turn([], false));
    }

    static lemma ListDone(s0: Sys, steps: seq<Step>, s: Sys)
      requires Inv(s0) && Inv(s) && s == RunAll(s0, steps) && s.phase == Draining && s.ready == []
      ensures Inv(s.(phase := Waiting)) && s.(phase := Waiting) == RunAll(s0, steps + [Drain(Turn([], false))])
    {
      hide TimersOk, LiveOk, PassOk, LogOk, TimeoutsOk;
      RunOneMore(s0, steps, Drain(Turn([], false)));
      DrainKeeps(s, Turn([], false));
    }

    /** The ready-list phase of a pass. */
    method DrainList(script: nat -> Turn, ghost s0: Sys, ghost steps0: seq<Step>) returns (ghost steps: seq<Step>)
      requires Inv(s0) && Inv(State()) && State() == RunAll(s0, steps0) && phase == Draining
      modifies this
      ensures Inv(State()) && State() == RunAll(s0, steps) && phase == Waiting
      ensures history.reported == old(history.reported) && old(history.log) <= history.log
    {
      hide TimersOk, LiveOk, LogOk, TimeoutsOk;
      steps := steps0;
      var n := 0;
      while serviceList != []
        invariant Inv(State()) && State() == RunAll(s0, steps) && phase == Draining
        invariant history.reported == old(history.reported) && old(history.log) <= history.log
        decreases |serviceList|
      {
        steps := DrainNext(script(n), s0, steps);
        n := n + 1;
      }
      ListDone(s0, steps, State());
      steps := steps + [Drain(Turn([], false))];
      phase := Waiting;
    }

    method DrainNext(turn: Turn, ghost s0: Sys, ghost steps0: seq<Step>) returns (ghost steps: seq<Step>)
      requires Inv(s0) && Inv(State()) && State() == RunAll(s0, steps0) && phase == Draining && serviceList != []
      modifies this
      ensures Inv(State()) && State() == RunAll(s0, steps) && phase == Draining
      ensures |serviceList| < |old(serviceList)| && history.reported == old(history.reported)
      ensures old(history.log) <= history.log
    {
      hide TimersOk, LiveOk, PassOk, LogOk, TimeoutsOk, DoDrain;
      RunOneMore(s0, steps0, Drain(turn));
      DrainOne(turn);
      steps := steps0 + [Drain(turn)];
    }

    /** Resumes the first service of the ready list. */
    method DrainOne(turn: Turn)
      requires Inv(State()) && phase == Draining && serviceList != []
      modifies this
      ensures Inv(State()) && State() == DoDrain(old(State()), turn)
      ensures phase == Draining && |serviceList| < |old(serviceList)| && history.reported == old(history.reported)
      ensures old(history.log) <= history.log
    {
      ghost var s := State();
      DrainKeeps(s, turn);
      var svc := serviceList[0];
      serviceList := serviceList[1..];
      history := history.(served := history.served + [svc]);
      DrainedTurn(s, State(), turn);
      Resume(svc, turn);
    }

    static lemma DrainedTurn(s: Sys, s1: Sys, turn: Turn)
      requires Inv(s) && s.phase == Draining && s.ready != []
      requires s1 == s.(ready := s.ready[1..], history := s.history.(served := s.history.served + [s.ready[0]]))
      ensures Idle(s1) && s.ready[0] in s1.live && DoDrain(s, turn) == Scheduling.Resume(s1, s.ready[0], turn)
      ensures DoDrain(s, turn).phase == Draining && DoDrain(s, turn).history.reported == s.history.reported
    {
      assert s.ready[0] in s.ready;
      TurnKeeps(s1, s.ready[0], None, turn);
      assert DoDrain(s, turn) == TurnBy(s1, s.ready[0], None, turn);
    }

    /** Queues the reported services. */
    method Collect(fds: seq<int>, now: Timespec)
      requires phase == Waiting && forall i :: 0 <= i < |fds| ==> fds[i] in registry
      modifies this`serviceList, this`phase, this`history
      ensures State() == DoReport(old(State()), fds, now)
    {
      serviceList := [];
      for x := 0 to |fds|
        invariant history == old(history) && serviceList == ServicesAt(registry, fds[..x])
      {
        serviceList := serviceList + [registry[fds[x]]];
      }
      assert fds[..|fds|] == fds;
      phase := Expiring(0, now);
      history := history.(reported := serviceList, served := [], killed := {});
    }

    /** One pass of run() in which epoll_wait reported the given descriptors.  The scripts
        say what the n-th service resumed in each phase does.  The pass is a run of the
        step system that ends with every reported service resumed once, in order, but for
        those that died while timers ran.  Every service whose timer was due at the start,
        and whose timer no turn of the timer phase sets anew, has been called back for it. */
    method RunPass(fds: seq<int>, now: Timespec, timerScript: nat -> Turn, script: nat -> Turn)
      returns (ghost steps: seq<Step>)
      requires Inv(State()) && phase == Waiting && now.Normal()
      requires fds != [] && NoDup(fds) && forall i :: 0 <= i < |fds| ==> fds[i] in registry
      requires PassEnds(State(), fds, now, timerScript)
      modifies this
      ensures Inv(State()) && phase == Waiting && serviceList == [] && running == Main
      ensures State() == RunAll(old(State()), steps)
      ensures |history.reported| == |fds|
      ensures forall i :: 0 <= i < |fds| ==> history.reported[i] == old(registry)[fds[i]]
      ensures DueCalledBack(old(State()), history.log, timerScript, now)
      ensures history.served == Remaining(history.reported, history.killed)
    {
      hide TimersOk, LiveOk, LogOk, TimeoutsOk, DueCalledBack;
      ghost var s := State();
      ReportKeeps(s, fds, now);
      ghost var k :| TimersEnd(DoReport(s, fds, now), timerScript, 0, k);
      Collect(fds, now);
      ghost var s1 := State();
      ghost var rounds := ExpireTimers(now, timerScript, k, s1);
      PhaseCallsBack(s1, rounds, timerScript);
      SameTimersReported(s, s1, history.log, timerScript, now);
      AfterReport(s, fds, now, rounds);
      ghost var log := history.log;
      steps := DrainList(script, s, [Report(fds, now)] + rounds);
      StillCalledBack(s, log, history.log, timerScript, now);
      assert history.served + serviceList == history.served;
    }

    static lemma SameTimersReported(s: Sys, s1: Sys, log: seq<Event>, script: nat -> Turn, now: Timespec)
      requires s1.timers == s.timers && s1.history.agendas == s.history.agendas && s1.history.log == s.history.log
      requires DueCalledBack(s1, log, script, now)
      ensures DueCalledBack(s, log, script, now)
    {
    }

    static lemma AfterReport(s: Sys, fds: seq<int>, now: Timespec, rounds: seq<Step>)
      requires Inv(s) && s.phase == Waiting && now.Normal() && fds != [] && NoDup(fds)
      requires forall i :: 0 <= i < |fds| ==> fds[i] in s.registry
      ensures Inv(DoReport(s, fds, now))
      ensures RunAll(s, [Report(fds, now)] + rounds) == RunAll(DoReport(s, fds, now), rounds)
    {
      hide TimersOk, LiveOk, LogOk, TimeoutsOk;
      ReportKeeps(s, fds, now);
      assert ([Report(fds, now)] + rounds)[1..] == rounds;
    }
  }

  // ---- when the timer phase ends ----------------------------------------------------

  /** The timer phase, in which the n-th turn is script(n), is over after k rounds. */
  ghost predicate TimersEnd(s: Sys, script: nat -> Turn, n: nat, k: nat)
    requires Inv(s)
    decreases k
  {
    s.phase == Draining ||
    (s.phase.Expiring? && k > 0 && (ExpireKeeps(s, script(n)); TimersEnd(DoExpire(s, script(n)), script, n + 1, k - 1)))
  }

  /** The timer phase of a pass with these descriptors reported is over some time. */
  ghost predicate PassEnds(s: Sys, fds: seq<int>, now: Timespec, script: nat -> Turn)
    requires Inv(s) && now.Normal() && NoDup(fds) && forall i :: 0 <= i < |fds| ==> fds[i] in s.registry
  {
    ReportKeeps(s, fds, now);
    exists k :: TimersEnd(DoReport(s, fds, now), script, 0, k)
  }

  /** Every wheel has two slots at least, and the script only sets timers with deadlines a
      granule or more ahead. */
  ghost predicate Patience(ts: seq<Wheel<Id>>, script: nat -> Turn, now: Timespec) {
    && (forall k :: 0 <= k < |ts| ==> |ts[k].slots| >= 2)
    && (forall n :: PatientActs(script(n).acts, ts, now))
  }

  lemma PatienceStays(ts: seq<Wheel<Id>>, us: seq<Wheel<Id>>, script: nat -> Turn, now: Timespec)
    requires Patience(ts, script, now) && SameShape(ts, us)
    ensures Patience(us, script, now)
  {
    forall n ensures PatientActs(script(n).acts, us, now) {
      assert PatientActs(script(n).acts, ts, now);
    }
  }

  ghost function FirstSlot(w: Wheel<Id>): nat {
    if w.slots == [] then 0 else |w.slots[0]|
  }

  /** Serving has got on: the epoch is nearer to now, or the first slot is shorter. */
  ghost predicate Shrinks(w: Wheel<Id>, w': Wheel<Id>, now: Timespec) {
    w'.Lag(now) < w.Lag(now) || (w'.Lag(now) == w.Lag(now) && FirstSlot(w') < FirstSlot(w))
  }

  lemma FireShrinks(s: Sys, k: nat, now: Timespec, turn: Turn)
    requires Inv(s) && s.phase == Expiring(k, now) && k < |s.timers| && now.Normal()
    requires PopExpired(s, k, now).0.Some?
    requires |s.timers[k].slots| >= 2 && PatientActs(turn.acts, s.timers, now)
    ensures var r := DoExpire(s, turn); |r.timers| == |s.timers| && Shrinks(s.timers[k], r.timers[k], now)
  {
    hide LiveOk, LogOk, TimeoutsOk, PassOk, DoFire, AgendasOk, SetOnce, DueAt, OnGrid;
    var (next, s1) := PopExpired(s, k, now);
    Scheduler.ExpireFacts(s, k, now, turn, next, s1);
    PoppedShrinks(s, k, now);
    FireSpares(s1, next.value, turn);
    assert DoExpire(s, turn) == DoFire(s1, next.value, turn);
    ShrinksFurther(s.timers[k], s1.timers[k], DoFire(s1, next.value, turn).timers[k], now);
  }

  lemma PoppedShrinks(s: Sys, k: nat, now: Timespec)
    requires TimersOk(s) && k < |s.timers| && now.Normal() && PopExpired(s, k, now).0.Some?
    ensures var s1 := PopExpired(s, k, now).1;
            && SameShape(s.timers, s1.timers) && s1.phase == s.phase
            && s1.timers[k].epoch.Value() <= now.Value()
            && (s1.timers[k].Lag(now) < s.timers[k].Lag(now) ||
                (s1.timers[k].epoch == s.timers[k].epoch && FirstSlot(s1.timers[k]) < FirstSlot(s.timers[k])))
  {
    hide AgendasOk, SetOnce, DueAt, OnGrid, Wheel<Id>.Next;
    assert s.timers[k].Valid();
    NextShrinks(s.timers[k], now);
  }

  lemma ShrinksFurther(w: Wheel<Id>, w1: Wheel<Id>, w2: Wheel<Id>, now: Timespec)
    requires w1.Lag(now) < w.Lag(now) || (w1.epoch == w.epoch && FirstSlot(w1) < FirstSlot(w))
    requires w2.epoch == w1.epoch && FirstSlot(w2) <= FirstSlot(w1)
    ensures Shrinks(w, w2, now)
  {
  }

  /** A patient script ends the timer phase, from any state of it. */
  lemma {:induction false} PatientTimersEnd(s: Sys, script: nat -> Turn, n: nat) returns (k: nat)
    requires Inv(s) && s.phase.Expiring? && s.phase.now.Normal() && Patience(s.timers, script, s.phase.now)
    ensures TimersEnd(s, script, n, k)
    decreases |s.timers| - s.phase.timerx,
              if s.phase.timerx < |s.timers| then s.timers[s.phase.timerx].Lag(s.phase.now) else 0,
              if s.phase.timerx < |s.timers| then FirstSlot(s.timers[s.phase.timerx]) else 0
  {
    hide TimersOk, LiveOk, LogOk, TimeoutsOk, PassOk, DoExpire, PopExpired, PatientActs, FirstSlot, Wheel<Id>.Lag;
    var x, now, turn := s.phase.timerx, s.phase.now, script(n);
    ExpireKeeps(s, turn);
    var r := DoExpire(s, turn);
    if x < |s.timers| {
      var (next, s1) := PopExpired(s, x, now);
      Scheduler.ExpireFacts(s, x, now, turn, next, s1);
      PatienceStays(s.timers, r.timers, script, now);
      if next.Some? {
        FireShrinks(s, x, now, turn);
      }
      k := PatientTimersEnd(r, script, n + 1);
      k := k + 1;
    } else {
      TimersOver(s, turn);
      k := 1;
    }
  }

  lemma TimersOver(s: Sys, turn: Turn)
    requires TimersOk(s) && s.phase.Expiring? && s.phase.now.Normal() && s.phase.timerx >= |s.timers|
    ensures DoExpire(s, turn).phase == Draining
  {
  }

  lemma PatientPassEnds(s: Sys, fds: seq<int>, now: Timespec, script: nat -> Turn)
    requires Inv(s) && now.Normal() && NoDup(fds) && forall i :: 0 <= i < |fds| ==> fds[i] in s.registry
    requires Patience(s.timers, script, now)
    ensures PassEnds(s, fds, now, script)
  {
    hide TimersOk, LiveOk, LogOk, TimeoutsOk, PassOk, Patience;
    ReportKeeps(s, fds, now);
    var k := PatientTimersEnd(DoReport(s, fds, now), script, 0);
  }
}
