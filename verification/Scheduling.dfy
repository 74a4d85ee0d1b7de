/** The scheduler, its services and their coroutines as a step system (scheduler.cpp,
    scheduler.hpp, coroutine.hpp).  Service objects are identities; `live` holds those that
    have not been deleted. */
module Scheduling {
  import opened Agenda
  import opened Clock
  import opened Options
  import opened Serving
  import opened TimerExpire
  import opened TimerWheel

  type Id = nat

  /** A coroutine context: the scheduler's own, or a service's. */
  datatype Ctx = Main | Running(id: Id)

  /** `timerx` is None for Scheduler::no_timer.  A service is `started` once it has been
      entered; from then on it is suspended inside Service::yield. */
  datatype Service = Service(sock: int, timerx: Option<nat>, caller: Option<Ctx>, started: bool)

  /** What a service does between being resumed and giving control back. */
  datatype Act =
    | Spawn(fd: int, added: bool)
    | SetTimer(timerx: nat, target: Id, at: Timespec, ms: int)

  /** Its acts, and whether it ends by closing its socket and terminating. */
  datatype Turn = Turn(acts: seq<Act>, exits: bool)

  /** Where run() is in its loop. */
  datatype Phase = Waiting | Expiring(timerx: nat, now: Timespec) | Draining

  datatype Event =
    | Fired(id: Id, timerx: nat)
    | Resumed(id: Id)
    | Raised(id: Id, timerx: nat)
    | Back(id: Id, isNull: bool)
    | Deleted(id: Id)

  /** What has happened, for stating properties: all events; the timers set, wheel by
      wheel; for the current pass the services reported, those resumed from the ready list,
      and those deleted while timers ran; and the services that epoll took. */
  datatype History = History(
    log: seq<Event>, agendas: seq<seq<Entry<Id>>>, reported: seq<Id>, served: seq<Id>, killed: set<Id>,
    added: set<Id>)

  datatype Sys = Sys(
    live: map<Id, Service>,
    nextId: Id,
    timers: seq<Wheel<Id>>,
    registry: map<int, Id>,  // epoll: descriptor to service
    fdset: map<int, Id>,
    ready: seq<Id>,          // service_list
    phase: Phase,
    running: Ctx,
    schedCaller: Option<Id>,
    aborted: bool,           // the process has ended; later steps mean nothing
    history: History)

  // ---- the operations ------------------------------------------------------------

  function Log(s: Sys, e: Event): Sys {
    s.(history := s.history.(log := s.history.log + [e]))
  }

  function UnlinkAll(ts: seq<Wheel<Id>>, o: Id): seq<Wheel<Id>> {
    seq(|ts|, k requires 0 <= k < |ts| => ts[k].Unlink(o))
  }

  function CancelAll(agendas: seq<seq<Entry<Id>>>, o: Id): seq<seq<Entry<Id>>> {
    seq(|agendas|, k requires 0 <= k < |agendas| => Cancel(agendas[k], o))
  }

  /** Scheduler::set_timer.  The service's one hook takes it out of whichever wheel it is
      in.  A timer index out of range, or a slot out of range, ends the process. */
  function DoSetTimer(s: Sys, timerx: nat, o: Id, at: Timespec, ms: int): Sys
    requires TimersOk(s)
  {
    if timerx >= |s.timers| then s.(aborted := true)
    else
      var w := s.timers[timerx];
      match w.Insert(at, ms, o)
      case None => s.(aborted := true)
      case Some(w') =>
        var agenda := Set(s.history.agendas[timerx], o, w.At(w.Index(at, ms)));
        s.(timers := UnlinkAll(s.timers, o)[timerx := w'],
           history := s.history.(agendas := CancelAll(s.history.agendas, o)[timerx := agenda]))
  }

  /** new Service on a fresh descriptor, and Scheduler::add; `added` is whether epoll took
      it.  add does not touch fdset. */
  function DoSpawn(s: Sys, fd: int, added: bool): Sys {
    s.(live := s.live[s.nextId := Service(fd, None, None, false)],
       nextId := s.nextId + 1,
       registry := if added then s.registry[fd := s.nextId] else s.registry,
       history := s.history.(added := if added then s.history.added + {s.nextId} else s.history.added))
  }

  /** An act.  No C++ program can be handed a descriptor that is open, or name a deleted
      service: such acts are skipped. */
  function DoAct(s: Sys, act: Act): Sys
    requires TimersOk(s)
  {
    match act
    case Spawn(fd, added) => if SocketOpen(s, fd) then s else DoSpawn(s, fd, added)
    case SetTimer(timerx, target, at, ms) =>
      if target in s.live then DoSetTimer(s, timerx, target, at, ms) else s
  }

  predicate SocketOpen(s: Sys, fd: int) {
    exists id :: id in s.live && s.live[id].sock == fd
  }

  function DoActs(s: Sys, acts: seq<Act>): Sys
    requires TimersOk(s)
    decreases |acts|
  {
    if acts == [] then s else (DoActKeepsTimers(s, acts[0]); DoActs(DoAct(s, acts[0]), acts[1..]))
  }

  /** Scheduler::del: fdset is searched, and only then epoll is told. */
  function DoDel(s: Sys, fd: int): (bool, Sys) {
    if fd !in s.fdset then (false, s)
    else (true, s.(fdset := s.fdset - {fd}, registry := s.registry - {fd}))
  }

  /** delete: the hooks unlink the service from the ready list and from its wheel. */
  function DoDelete(s: Sys, id: Id): Sys {
    Log(s.(live := s.live - {id},
           ready := Without(s.ready, id),
           timers := UnlinkAll(s.timers, id),
           history := s.history.(
             agendas := CancelAll(s.history.agendas, id),
             killed := if s.phase.Expiring? then s.history.killed + {id} else s.history.killed)),
        Deleted(id))
  }

  /** The transfer back through the service's caller.  exit_coroutine has done del and
      close before -- closing takes the descriptor out of epoll -- and carries null; the
      scheduler then deletes the service. */
  function Leave(s: Sys, id: Id, exits: bool): Sys
    requires id in s.live
  {
    var svc := s.live[id];
    var to := if svc.caller.Some? then svc.caller.value else Running(id);
    if exits then
      var s1 := DoDel(s, svc.sock).1;
      var s2 := s1.(registry := s1.registry - {svc.sock}, running := to, schedCaller := Some(id));
      DoDelete(Log(s2, Back(id, true)), id)
    else
      Log(s.(running := to, schedCaller := Some(id)), Back(id, false))
  }

  /** The transfer to a service, up to where its own code goes on.  In Service::yield a
      pending timer index is cleared and thrown as a Timeout. */
  function Enter(s: Sys, id: Id): Sys
    requires id in s.live
  {
    var svc := s.live[id];
    var svc' := svc.(caller := Some(Main), started := true, timerx := if svc.started then None else svc.timerx);
    var s1 := Log(s.(live := s.live[id := svc'], running := Running(id)), Resumed(id));
    if svc.started && svc.timerx.Some? then Log(s1, Raised(id, svc.timerx.value)) else s1
  }

  function Resume(s: Sys, id: Id, turn: Turn): Sys
    requires TimersOk(s) && id in s.live
  {
    var s1 := Enter(s, id);
    ActsKeepLive(s1, turn.acts);
    Leave(DoActs(s1, turn.acts), id, turn.exits)
  }

  // ---- the steps of run() ---------------------------------------------------------

  datatype Step =
    | Setup(act: Act)
    | Report(fds: seq<int>, now: Timespec)
    | Expire(turn: Turn)
    | Drain(turn: Turn)

  function ServicesAt(registry: map<int, Id>, fds: seq<int>): seq<Id>
    requires forall i :: 0 <= i < |fds| ==> fds[i] in registry
  {
    seq(|fds|, i requires 0 <= i < |fds| => registry[fds[i]])
  }

  /** epoll_wait has returned these descriptors, each once (it never reports one twice),
      and the time has been taken. */
  function DoReport(s: Sys, fds: seq<int>, now: Timespec): Sys
    requires forall i :: 0 <= i < |fds| ==> fds[i] in s.registry
  {
    var ids := ServicesAt(s.registry, fds);
    s.(ready := ids, phase := Expiring(0, now),
       history := s.history.(reported := ids, served := [], killed := {}))
  }

  /** The timer callback: mark the expiry, then resume. */
  function DoFire(s: Sys, id: Id, turn: Turn): Sys
    requires TimersOk(s) && id in s.live && s.phase.Expiring?
  {
    var svc := s.live[id];
    var svc' := svc.(timerx := Some(s.phase.timerx));
    Resume(Log(s.(live := s.live[id := svc']), Fired(id, s.phase.timerx)), id, turn)
  }

  /** One round of the timer loop: the next expired service of the current wheel, or on
      to the next wheel, or on to the ready list. */
  function DoExpire(s: Sys, turn: Turn): Sys
    requires TimersOk(s) && s.phase.Expiring? && s.phase.now.Normal()
  {
    var k := s.phase.timerx;
    if k >= |s.timers| then s.(phase := Draining)
    else
      var (o, s1) := PopExpired(s, k, s.phase.now);
      PopKeepsTimers(s, k, s.phase.now);
      if o.None? then s1.(phase := Expiring(k + 1, s.phase.now)) else DoFire(s1, o.value, turn)
  }

  /** Takes the next expired service out of wheel k. */
  function PopExpired(s: Sys, k: nat, now: Timespec): (Option<Id>, Sys)
    requires TimersOk(s) && k < |s.timers| && now.Normal()
  {
    var (o, w') := s.timers[k].Next(now);
    var agenda := s.history.agendas[k];
    (o, s.(timers := s.timers[k := w'],
           history := s.history.(
             agendas := if o.Some? && agenda != [] then s.history.agendas[k := Drop(agenda, Earliest(agenda))]
                        else s.history.agendas)))
  }

  function DoDrain(s: Sys, turn: Turn): Sys
    requires TimersOk(s)
  {
    if s.ready == [] then s.(phase := Waiting)
    else
      var id := s.ready[0];
      var s1 := s.(ready := s.ready[1..], history := s.history.(served := s.history.served + [id]));
      if id in s.live then Resume(s1, id, turn) else s1.(aborted := true)
  }

  /** A step that run() is not at, or that the kernel cannot make, leaves things alone. */
  function DoStep(s: Sys, step: Step): Sys
    requires TimersOk(s)
  {
    match step
    case Setup(act) => if s.phase == Waiting then DoAct(s, act) else s
    case Report(fds, now) =>
      if s.phase == Waiting && now.Normal() && NoDup(fds) && fds != []
         && (forall i :: 0 <= i < |fds| ==> fds[i] in s.registry)
      then DoReport(s, fds, now) else s
    case Expire(turn) => if s.phase.Expiring? && s.phase.now.Normal() then DoExpire(s, turn) else s
    case Drain(turn) => if s.phase == Draining then DoDrain(s, turn) else s
  }

  predicate NoDup<T(==)>(xs: seq<T>) {
    forall i, j :: 0 <= i < j < |xs| ==> xs[i] != xs[j]
  }

  // ---- the timers' part of the invariant --------------------------------------------

  /** Every wheel holds its agenda, the agendas name live services, and no service is in
      two of them. */
  ghost predicate TimersOk(s: Sys) {
    && |s.history.agendas| == |s.timers|
    && (forall k :: 0 <= k < |s.timers| ==> Represents(s.timers[k], s.history.agendas[k]))
    && AgendasOk(s.history.agendas, s.live.Keys)
  }

  ghost predicate AgendasOk(agendas: seq<seq<Entry<Id>>>, live: set<Id>) {
    && (forall k, e :: 0 <= k < |agendas| && e in agendas[k] ==> e.obj in live)
    && (forall j, k, e, f :: 0 <= j < k < |agendas| && e in agendas[j] && f in agendas[k] ==> e.obj != f.obj)
  }

  lemma UnlinkCancels(w: Wheel<Id>, a: seq<Entry<Id>>, o: Id)
    requires Represents(w, a)
    ensures Represents(w.Unlink(o), Cancel(a, o))
  {
    var w', a' := w.Unlink(o), Cancel(a, o);
    CancelSetOnce(a, o);
    forall i | 0 <= i < |w'.slots| ensures w'.slots[i] == DueAt(a', w'.At(i)) {
      DueAtCancel(a, o, w.At(i));
    }
    forall e | e in a' ensures OnGrid(w', e.due) {
      CancelKeeps(a, o, e);
      assert OnGrid(w, e.due);
      var i :| 0 <= i < |w.slots| && e.due == w.At(i);
      assert e.due == w'.At(i);
    }
  }

  lemma UnlinkAllKeepsTimers(ts: seq<Wheel<Id>>, agendas: seq<seq<Entry<Id>>>, live: set<Id>, o: Id)
    requires |agendas| == |ts| && (forall k :: 0 <= k < |ts| ==> Represents(ts[k], agendas[k]))
    requires AgendasOk(agendas, live)
    ensures forall k :: 0 <= k < |ts| ==> Represents(UnlinkAll(ts, o)[k], CancelAll(agendas, o)[k])
    ensures AgendasOk(CancelAll(agendas, o), live - {o})
  {
    forall k | 0 <= k < |ts| ensures Represents(UnlinkAll(ts, o)[k], CancelAll(agendas, o)[k]) {
      UnlinkCancels(ts[k], agendas[k], o);
    }
    forall k, e | 0 <= k < |ts| && e in CancelAll(agendas, o)[k] ensures e in agendas[k] && e.obj != o {
      CancelKeeps(agendas[k], o, e);
    }
  }

  lemma SetTimerKeepsTimers(s: Sys, timerx: nat, o: Id, at: Timespec, ms: int)
    requires TimersOk(s) && o in s.live
    ensures TimersOk(DoSetTimer(s, timerx, o, at, ms))
  {
    hide DueAt, OnGrid, SetOnce;
    if timerx < |s.timers| && s.timers[timerx].Insert(at, ms, o).Some? {
      var s', agendas := DoSetTimer(s, timerx, o, at, ms), s.history.agendas;
      UnlinkAllKeepsTimers(s.timers, agendas, s.live.Keys, o);
      InsertSetsTimer(s.timers[timerx], agendas[timerx], at, ms, o);
      var due := s.timers[timerx].At(s.timers[timerx].Index(at, ms));
      SetKeepsSetOnce(agendas[timerx], o, due);
      OneAgendaReplaced(CancelAll(agendas, o), timerx, Set(agendas[timerx], o, due), Entry(o, due), s.live.Keys);
    }
  }

  lemma OneAgendaReplaced(agendas: seq<seq<Entry<Id>>>, k: nat, a: seq<Entry<Id>>, e: Entry<Id>, live: set<Id>)
    requires AgendasOk(agendas, live - {e.obj}) && k < |agendas| && e.obj in live
    requires forall f :: f in a ==> f == e || f in agendas[k]
    ensures AgendasOk(agendas[k := a], live)
  {
  }

  /** set_timer in full: a timer index out of range ends the process, and so does a deadline
      for which there is no slot; otherwise the service's timer is entered in that wheel's
      agenda, at the instant of its slot, and taken out of all others. */
  lemma SetTimerSets(s: Sys, timerx: nat, o: Id, at: Timespec, ms: int)
    requires TimersOk(s) && o in s.live && at.Normal()
    ensures var r := DoAct(s, SetTimer(timerx, o, at, ms));
            if timerx >= |s.timers| then r == s.(aborted := true)
            else
              var w := s.timers[timerx];
              var due := Place(GridOf(w), w.epoch.Value(), at.Value() + ms * 1_000_000);
              if due.None? then r == s.(aborted := true)
              else
                && r == s.(timers := r.timers, history := s.history.(agendas := r.history.agendas))
                && |r.history.agendas| == |s.timers|
                && r.history.agendas[timerx] == Set(s.history.agendas[timerx], o, due.value)
                && forall k :: 0 <= k < |s.timers| && k != timerx ==>
                     r.history.agendas[k] == Cancel(s.history.agendas[k], o)
  {
    hide Place, Set, Wheel<Id>.Index, DueAt, OnGrid, SetOnce;
    if timerx < |s.timers| {
      assert Represents(s.timers[timerx], s.history.agendas[timerx]);
      InsertPlaces(s.timers[timerx], Rearm(at, ms, o));
    }
  }

  /** A new service in full: it is live with its own descriptor, not yet started and without
      an expiry, and exactly if epoll took it, it is registered there. */
  lemma SpawnAdds(s: Sys, fd: int, added: bool)
    requires TimersOk(s) && !SocketOpen(s, fd)
    ensures var r, id := DoAct(s, Spawn(fd, added)), s.nextId;
            && r.nextId > id && id in r.live && r.live[id].sock == fd
            && !r.live[id].started && r.live[id].timerx.None?
            && (forall x :: x in s.live && x != id ==> x in r.live && r.live[x] == s.live[x])
            && (forall x :: x in r.live ==> x in s.live || x == id)
            && (added ==> fd in r.registry && r.registry[fd] == id && id in r.history.added)
            && (forall f :: f in s.registry && !(added && f == fd) ==>
                  f in r.registry && r.registry[f] == s.registry[f])
            && (forall f :: f in r.registry ==> f in s.registry || (added && f == fd))
  {
  }

  lemma DoActKeepsTimers(s: Sys, act: Act)
    requires TimersOk(s)
    ensures TimersOk(DoAct(s, act))
  {
    match act
    case SetTimer(timerx, target, at, ms) =>
      if target in s.live {
        SetTimerKeepsTimers(s, timerx, target, at, ms);
      }
    case Spawn(_, _) =>
  }

  lemma PopKeepsTimers(s: Sys, k: nat, now: Timespec)
    requires TimersOk(s) && k < |s.timers| && now.Normal()
    ensures var (o, s1) := PopExpired(s, k, now);
            && TimersOk(s1) && s1.live == s.live && s1.phase == s.phase
            && (o.Some? ==> o.value in s.live)
  {
    var a := s.history.agendas[k];
    var i := NextIsEarliestDue(s.timers[k], a, now);
    if s.timers[k].Next(now).0.Some? {
      assert i == Earliest(a);
      DropFromAgenda(s.history.agendas, k, i, s.live.Keys);
    }
  }

  /** What expire's loops take out next: nothing exactly when nothing in the wheel's agenda is
      due, and otherwise the service of its earliest entry, which leaves the agenda. */
  lemma PopsEarliestDue(s: Sys, k: nat, now: Timespec)
    requires TimersOk(s) && k < |s.timers| && now.Normal()
    ensures var (o, s1), a := PopExpired(s, k, now), s.history.agendas[k];
            && (o.None? <==> AllLater(a, now.Value()))
            && (o.None? ==> s1.history.agendas == s.history.agendas)
            && (o.Some? ==>
                  && a != [] && a[Earliest(a)].obj == o.value && a[Earliest(a)].due <= now.Value()
                  && s1.history.agendas == s.history.agendas[k := Drop(a, Earliest(a))])
  {
    var a := s.history.agendas[k];
    var i := NextIsEarliestDue(s.timers[k], a, now);
    if s.timers[k].Next(now).0.Some? {
      assert i == Earliest(a) && a[i] in a;
    }
  }

  lemma DropFromAgenda(agendas: seq<seq<Entry<Id>>>, k: nat, i: nat, live: set<Id>)
    requires AgendasOk(agendas, live) && k < |agendas| && SetOnce(agendas[k]) && i < |agendas[k]|
    ensures agendas[k][i].obj in live
    ensures AgendasOk(agendas[k := Drop(agendas[k], i)], live)
  {
    assert agendas[k][i] in agendas[k];
    DropKeepsSetOnce(agendas[k], i);
  }

  lemma {:induction false} ActsKeepLive(s: Sys, acts: seq<Act>)
    requires TimersOk(s)
    ensures TimersOk(DoActs(s, acts))
    ensures forall id :: id in s.live ==>
              id in DoActs(s, acts).live && (id < s.nextId ==> DoActs(s, acts).live[id] == s.live[id])
    decreases |acts|
  {
    if acts != [] {
      DoActKeepsTimers(s, acts[0]);
      ActsKeepLive(DoAct(s, acts[0]), acts[1..]);
    }
  }

  /** Acts are performed one after the other, all of them. */
  lemma {:induction false} ActsInOrder(s: Sys, acts: seq<Act>, act: Act)
    requires TimersOk(s)
    ensures DoActs(s, []) == s
    ensures TimersOk(DoActs(s, acts)) && DoActs(s, acts + [act]) == DoAct(DoActs(s, acts), act)
    decreases |acts|
  {
    hide TimersOk, DoAct;
    ActsKeepLive(s, acts);
    DoActKeepsTimers(DoActs(s, acts), act);
    if acts == [] {
      assert acts + [act] == [act] && [act][1..] == [];
    } else {
      DoActKeepsTimers(s, acts[0]);
      assert (acts + [act])[0] == acts[0] && (acts + [act])[1..] == acts[1..] + [act];
      ActsInOrder(DoAct(s, acts[0]), acts[1..], act);
    }
  }

  // ---- the invariant -------------------------------------------------------------------

  ghost predicate LiveOk(s: Sys) {
    && (forall id :: id in s.live ==> id < s.nextId)
    && (forall i, j :: i in s.live && j in s.live && s.live[i].sock == s.live[j].sock ==> i == j)
    && (forall fd :: fd in s.registry ==> s.registry[fd] in s.live && s.live[s.registry[fd]].sock == fd)
    && (forall id :: id in s.live && id in s.history.added ==>
          s.live[id].sock in s.registry && s.registry[s.live[id].sock] == id)
    && (forall fd :: fd in s.registry ==> s.registry[fd] in s.history.added)
    && (forall id :: id in s.history.added ==> id < s.nextId)
    && s.fdset == map[]
  }

  /** The services reported in this pass and not deleted while timers ran are those already
      resumed from the ready list and those still in it, in the order reported. */
  ghost predicate PassOk(s: Sys) {
    && NoDup(s.history.reported)
    && Remaining(s.history.reported, s.history.killed) == s.history.served + s.ready
    && (forall id :: id in s.ready ==> id in s.live)
    && (s.phase.Expiring? ==> s.history.served == [] && s.phase.now.Normal())
    && (s.phase.Waiting? ==> s.ready == [])
  }

  function Remaining(ids: seq<Id>, killed: set<Id>): seq<Id> {
    if ids == [] then [] else (if ids[0] in killed then [] else [ids[0]]) + Remaining(ids[1..], killed)
  }

  /** Every service ever made is live or has been deleted; one that has been deleted is in
      no later event; and a deletion is exactly what follows a null transfer. */
  ghost predicate LogOk(log: seq<Event>, live: set<Id>, nextId: Id) {
    && (forall j :: 0 <= j < |log| && log[j].Deleted? ==> log[j].id < nextId && log[j].id !in live)
    && (forall id: Id :: id < nextId && id !in live ==> Deleted(id) in log)
    && (forall i, j :: 0 <= i < j < |log| && log[i].Deleted? ==> log[j].id != log[i].id)
    && (forall j :: 0 <= j < |log| && log[j].Deleted? ==> j > 0 && log[j - 1] == Back(log[j].id, true))
    && (forall j :: 0 <= j < |log| && log[j].Back? && log[j].isNull ==>
          j + 1 < |log| && log[j + 1] == Deleted(log[j].id))
  }

  /** The wheel in which the service's latest expiry happened. */
  function LastFired(log: seq<Event>, id: Id): Option<nat> {
    if log == [] then None
    else
      var e := log[|log| - 1];
      if e.Fired? && e.id == id then Some(e.timerx) else LastFired(log[..|log| - 1], id)
  }

  function Fires(log: seq<Event>, id: Id): nat {
    if log == [] then 0
    else
      var e := log[|log| - 1];
      Fires(log[..|log| - 1], id) + if e.Fired? && e.id == id then 1 else 0
  }

  function Raises(log: seq<Event>, id: Id): nat {
    if log == [] then 0
    else
      var e := log[|log| - 1];
      Raises(log[..|log| - 1], id) + if e.Raised? && e.id == id then 1 else 0
  }

  /** How the service was entered each time, in order: true for an entry by the timer
      callback, false for one from the ready list. */
  function EntriesOf(log: seq<Event>, id: Id): seq<bool> {
    if log == [] then []
    else
      var e, before := log[|log| - 1], log[..|log| - 1];
      EntriesOf(before, id) + if e == Resumed(id) then [EndsFired(before, id)] else []
  }

  predicate EndsFired(log: seq<Event>, id: Id) {
    log != [] && log[|log| - 1].Fired? && log[|log| - 1].id == id
  }

  /** The service has been entered once, by an expiry: that Timeout is still to be thrown. */
  predicate Pending(entries: seq<bool>) { entries == [true] }

  /** The service's first two entries were both by expiries: the first one's Timeout was
      overwritten by the second's. */
  predicate Lost(entries: seq<bool>) { |entries| >= 2 && entries[0] && entries[1] }

  /** Every Timeout carries the wheel of the service's latest expiry, and the expiries
      without a Timeout of their own are the pending and the lost ones. */
  ghost predicate TimeoutsOk(log: seq<Event>, live: map<Id, Service>, nextId: Id) {
    && RaisesFollowFires(log)
    && (forall id: Id :: ExpiriesCounted(log, id))
    && (forall id :: id in live ==> ServiceTimeoutsOk(log, id, live[id]))
    && (forall id: Id :: id >= nextId ==> EntriesOf(log, id) == [])
  }

  ghost predicate RaisesFollowFires(log: seq<Event>) {
    forall j :: 0 <= j < |log| && log[j].Raised? ==> LastFired(log[..j], log[j].id) == Some(log[j].timerx)
  }

  ghost predicate ExpiriesCounted(log: seq<Event>, id: Id) {
    var entries := EntriesOf(log, id);
    Fires(log, id) == Raises(log, id) + (if Pending(entries) then 1 else 0) + (if Lost(entries) then 1 else 0)
  }

  ghost predicate ServiceTimeoutsOk(log: seq<Event>, id: Id, svc: Service) {
    var entries := EntriesOf(log, id);
    && (svc.started <==> entries != [])
    && (svc.timerx.Some? <==> Pending(entries))
    && (svc.timerx.Some? ==> LastFired(log, id) == svc.timerx)
  }

  /** What holds with the scheduler running, the pass aside. */
  ghost predicate Idle(s: Sys) {
    && TimersOk(s)
    && LiveOk(s)
    && LogOk(s.history.log, s.live.Keys, s.nextId)
    && TimeoutsOk(s.history.log, s.live, s.nextId)
    && Settled(s.history.log)
    && s.running == Main
  }

  /** No expiry waits for the service's resumption. */
  predicate Settled(log: seq<Event>) { log == [] || !log[|log| - 1].Fired? }

  /** What holds between any two steps. */
  ghost predicate Inv(s: Sys) {
    Idle(s) && PassOk(s)
  }

  // ---- acts keep everything ---------------------------------------------------------------

  /** What an act leaves alone. */
  ghost predicate SameButTimersAndSpawns(s: Sys, s': Sys) {
    && s'.ready == s.ready && s'.phase == s.phase && s'.running == s.running && s'.fdset == s.fdset
    && s'.history.log == s.history.log && s'.history.reported == s.history.reported
    && s'.history.served == s.history.served && s'.history.killed == s.history.killed
    && s.nextId <= s'.nextId
    && (forall id :: id in s'.live <==> id in s.live || s.nextId <= id < s'.nextId)
    && (forall id :: id in s.live ==> s'.live[id] == s.live[id])
    && (forall id :: id in s'.live && id !in s.live ==>
          s'.live[id].timerx.None? && !s'.live[id].started)
  }

  lemma ActIsLocal(s: Sys, act: Act)
    requires TimersOk(s) && LiveOk(s)
    ensures TimersOk(DoAct(s, act)) && LiveOk(DoAct(s, act))
    ensures SameButTimersAndSpawns(s, DoAct(s, act))
  {
    hide TimersOk, SocketOpen, LiveOk, SameButTimersAndSpawns, DoSetTimer, DoSpawn;
    DoActKeepsTimers(s, act);
    SameIsLocal(s);
    match act
    case SetTimer(timerx, target, at, ms) => SetTimerIsLocal(s, timerx, target, at, ms);
    case Spawn(fd, added) =>
      if !SocketOpen(s, fd) {
        SpawnIsLocal(s, fd, added);
      }
  }

  lemma SameIsLocal(s: Sys)
    ensures SameButTimersAndSpawns(s, s)
  {
  }

  lemma SetTimerIsLocal(s: Sys, timerx: nat, o: Id, at: Timespec, ms: int)
    requires TimersOk(s) && LiveOk(s)
    ensures var r := DoSetTimer(s, timerx, o, at, ms); LiveOk(r) && SameButTimersAndSpawns(s, r)
  {
    hide TimersOk, Wheel<Id>.Insert, Wheel<Id>.Index;
  }

  lemma SpawnIsLocal(s: Sys, fd: int, added: bool)
    requires LiveOk(s) && !SocketOpen(s, fd)
    ensures LiveOk(DoSpawn(s, fd, added)) && SameButTimersAndSpawns(s, DoSpawn(s, fd, added))
  {
  }

  lemma {:induction false} ActsAreLocal(s: Sys, acts: seq<Act>)
    requires TimersOk(s) && LiveOk(s)
    ensures TimersOk(DoActs(s, acts)) && LiveOk(DoActs(s, acts))
    ensures SameButTimersAndSpawns(s, DoActs(s, acts))
    decreases |acts|
  {
    if acts != [] {
      ActIsLocal(s, acts[0]);
      ActsAreLocal(DoAct(s, acts[0]), acts[1..]);
    }
  }

  lemma SpawnsKeepLog(s: Sys, s': Sys)
    requires SameButTimersAndSpawns(s, s')
    requires LogOk(s.history.log, s.live.Keys, s.nextId) && (forall id :: id in s.live ==> id < s.nextId)
    requires TimeoutsOk(s.history.log, s.live, s.nextId)
    ensures LogOk(s'.history.log, s'.live.Keys, s'.nextId)
    ensures TimeoutsOk(s'.history.log, s'.live, s'.nextId)
  {
    forall id | id in s'.live ensures ServiceTimeoutsOk(s'.history.log, id, s'.live[id]) {
      if id in s.live {
        assert ServiceTimeoutsOk(s.history.log, id, s.live[id]);
      }
    }
  }

  // ---- the log -----------------------------------------------------------------------------

  lemma LogOneMore(log: seq<Event>, e: Event, live: set<Id>, nextId: Id)
    requires LogOk(log, live, nextId) && e.id in live && !e.Deleted? && !(e.Back? && e.isNull)
    ensures LogOk(log + [e], live, nextId)
  {
    var log' := log + [e];
    assert forall j :: 0 <= j < |log| ==> log'[j] == log[j];
  }

  lemma LogDelete(log: seq<Event>, id: Id, live: set<Id>, nextId: Id)
    requires LogOk(log, live, nextId) && id in live && id < nextId
    ensures LogOk(log + [Back(id, true), Deleted(id)], live - {id}, nextId)
  {
    var log' := log + [Back(id, true), Deleted(id)];
    assert forall j :: 0 <= j < |log| ==> log'[j] == log[j];
    assert log'[|log|] == Back(id, true) && log'[|log| + 1] == Deleted(id);
    NamesDeleted(log, id, live, nextId);
  }

  lemma NamesDeleted(log: seq<Event>, id: Id, live: set<Id>, nextId: Id)
    requires forall x: Id :: x < nextId && x !in live ==> Deleted(x) in log
    ensures forall x: Id :: x < nextId && x !in live - {id} ==> Deleted(x) in log + [Back(id, true), Deleted(id)]
  {
  }

  lemma CountsOneMore(log: seq<Event>, e: Event, id: Id)
    ensures Fires(log + [e], id) == Fires(log, id) + if e.Fired? && e.id == id then 1 else 0
    ensures Raises(log + [e], id) == Raises(log, id) + if e.Raised? && e.id == id then 1 else 0
    ensures LastFired(log + [e], id) == if e.Fired? && e.id == id then Some(e.timerx) else LastFired(log, id)
    ensures EntriesOf(log + [e], id) == EntriesOf(log, id) + if e == Resumed(id) then [EndsFired(log, id)] else []
  {
    assert (log + [e])[..|log|] == log;
  }

  lemma RaisesOneMore(log: seq<Event>, e: Event)
    requires RaisesFollowFires(log) && (e.Raised? ==> LastFired(log, e.id) == Some(e.timerx))
    ensures RaisesFollowFires(log + [e])
  {
    var log' := log + [e];
    forall j | 0 <= j < |log'| && log'[j].Raised?
      ensures LastFired(log'[..j], log'[j].id) == Some(log'[j].timerx)
    {
      assert log'[..j] == if j < |log| then log[..j] else log;
    }
  }

  lemma TimeoutsOneMore(log: seq<Event>, e: Event, live: map<Id, Service>, nextId: Id)
    requires TimeoutsOk(log, live, nextId) && (e.Back? || e.Deleted?)
    ensures TimeoutsOk(log + [e], live, nextId)
  {
    RaisesOneMore(log, e);
    forall id: Id
      ensures EntriesOf(log + [e], id) == EntriesOf(log, id) && LastFired(log + [e], id) == LastFired(log, id)
      ensures ExpiriesCounted(log + [e], id)
    {
      assert ExpiriesCounted(log, id);
      CountsOneMore(log, e, id);
    }
    forall id | id in live ensures ServiceTimeoutsOk(log + [e], id, live[id]) {
      assert ServiceTimeoutsOk(log, id, live[id]);
    }
  }

  /** The events with which a service is entered: its expiry if a timer caused it, the
      resumption, and the Timeout thrown. */
  function EntryEvents(id: Id, svc: Service, expiry: Option<nat>): seq<Event> {
    var pending := if expiry.Some? then expiry else svc.timerx;
    (if expiry.Some? then [Fired(id, expiry.value)] else [])
    + [Resumed(id)]
    + (if svc.started && pending.Some? then [Raised(id, pending.value)] else [])
  }

  function Entered(svc: Service, expiry: Option<nat>): Service {
    var pending := if expiry.Some? then expiry else svc.timerx;
    svc.(caller := Some(Main), started := true, timerx := if svc.started then None else pending)
  }

  /** The events up to the resumption, and then the Timeout, if any. */
  lemma EntrySplits(log: seq<Event>, id: Id, svc: Service, expiry: Option<nat>) returns (fired: seq<Event>)
    ensures fired == if expiry.Some? then log + [Fired(id, expiry.value)] else log
    ensures var pending := if expiry.Some? then expiry else svc.timerx;
            log + EntryEvents(id, svc, expiry)
            == if svc.started && pending.Some? then fired + [Resumed(id)] + [Raised(id, pending.value)]
               else fired + [Resumed(id)]
  {
    fired := if expiry.Some? then log + [Fired(id, expiry.value)] else log;
  }

  lemma EntryCounts(log: seq<Event>, id: Id, svc: Service, expiry: Option<nat>, x: Id)
    requires expiry.None? ==> !EndsFired(log, id)
    ensures var log' := log + EntryEvents(id, svc, expiry);
            var pending := if expiry.Some? then expiry else svc.timerx;
            && Fires(log', x) == Fires(log, x) + (if expiry.Some? && x == id then 1 else 0)
            && Raises(log', x) == Raises(log, x) + (if svc.started && pending.Some? && x == id then 1 else 0)
            && LastFired(log', x) == (if expiry.Some? && x == id then expiry else LastFired(log, x))
            && EntriesOf(log', x) == EntriesOf(log, x) + (if x == id then [expiry.Some?] else [])
  {
    hide Fires, Raises, LastFired, EntriesOf, EntryEvents;
    var pending := if expiry.Some? then expiry else svc.timerx;
    var log1 := EntrySplits(log, id, svc, expiry);
    if expiry.Some? {
      CountsOneMore(log, Fired(id, expiry.value), x);
    }
    CountsOneMore(log1, Resumed(id), x);
    if svc.started && pending.Some? {
      CountsOneMore(log1 + [Resumed(id)], Raised(id, pending.value), x);
    }
  }

  lemma EntryRaises(log: seq<Event>, id: Id, svc: Service, expiry: Option<nat>)
    requires RaisesFollowFires(log) && (svc.timerx.Some? ==> LastFired(log, id) == svc.timerx)
    ensures RaisesFollowFires(log + EntryEvents(id, svc, expiry))
  {
    hide LastFired, EntryEvents;
    var pending := if expiry.Some? then expiry else svc.timerx;
    var log1 := EntrySplits(log, id, svc, expiry);
    assert RaisesFollowFires(log1) && (pending.Some? ==> LastFired(log1, id) == pending) by {
      if expiry.Some? {
        CountsOneMore(log, Fired(id, expiry.value), id);
        RaisesOneMore(log, Fired(id, expiry.value));
      }
    }
    RaisesOneMore(log1, Resumed(id));
    if svc.started && pending.Some? {
      CountsOneMore(log1, Resumed(id), id);
      RaisesOneMore(log1 + [Resumed(id)], Raised(id, pending.value));
    }
  }

  /** One entry of one service: what is counted for it and what it knows itself. */
  lemma EntryKeepsService(log: seq<Event>, id: Id, svc: Service, expiry: Option<nat>)
    requires ServiceTimeoutsOk(log, id, svc) && ExpiriesCounted(log, id)
    requires expiry.None? ==> !EndsFired(log, id)
    ensures var log' := log + EntryEvents(id, svc, expiry);
            ServiceTimeoutsOk(log', id, Entered(svc, expiry)) && ExpiriesCounted(log', id)
  {
    EntryCounts(log, id, svc, expiry, id);
    OneMoreEntry(EntriesOf(log, id), expiry.Some?);
  }

  lemma OneMoreEntry(entries: seq<bool>, fired: bool)
    ensures Pending(entries + [fired]) <==> entries == [] && fired
    ensures Lost(entries + [fired]) <==> Lost(entries) || (Pending(entries) && fired)
  {
    assert entries == [] ==> entries + [fired] == [fired];
  }

  lemma EntryKeepsTimeouts(log: seq<Event>, live: map<Id, Service>, nextId: Id, id: Id, expiry: Option<nat>)
    requires TimeoutsOk(log, live, nextId) && id in live && id < nextId
    requires expiry.None? ==> !EndsFired(log, id)
    ensures TimeoutsOk(log + EntryEvents(id, live[id], expiry), live[id := Entered(live[id], expiry)], nextId)
  {
    var svc, log' := live[id], log + EntryEvents(id, live[id], expiry);
    assert ServiceTimeoutsOk(log, id, svc);
    EntryRaises(log, id, svc, expiry);
    forall x: Id
      ensures ExpiriesCounted(log', x)
      ensures x in live ==> ServiceTimeoutsOk(log', x, live[id := Entered(svc, expiry)][x])
      ensures x >= nextId ==> EntriesOf(log', x) == []
    {
      assert ExpiriesCounted(log, x);
      if x == id {
        EntryKeepsService(log, id, svc, expiry);
      } else {
        EntryCounts(log, id, svc, expiry, x);
        assert x in live ==> ServiceTimeoutsOk(log, x, live[x]);
      }
    }
  }

  lemma EntryKeepsLog(log: seq<Event>, live: set<Id>, nextId: Id, id: Id, svc: Service, expiry: Option<nat>)
    requires LogOk(log, live, nextId) && id in live
    ensures LogOk(log + EntryEvents(id, svc, expiry), live, nextId)
  {
    hide LogOk, EntryEvents;
    var pending := if expiry.Some? then expiry else svc.timerx;
    var log1 := EntrySplits(log, id, svc, expiry);
    if expiry.Some? {
      LogOneMore(log, Fired(id, expiry.value), live, nextId);
    }
    LogOneMore(log1, Resumed(id), live, nextId);
    if svc.started && pending.Some? {
      LogOneMore(log1 + [Resumed(id)], Raised(id, pending.value), live, nextId);
    }
  }

  // ---- a whole turn ---------------------------------------------------------------------

  /** What holds while service id runs: its caller is the scheduler. */
  ghost predicate Mid(s: Sys, id: Id) {
    && TimersOk(s)
    && LiveOk(s)
    && LogOk(s.history.log, s.live.Keys, s.nextId)
    && TimeoutsOk(s.history.log, s.live, s.nextId)
    && s.running == Running(id) && id in s.live && s.live[id].caller == Some(Main)
  }

  /** The state in which a service's own code goes on, when it was resumed from the ready
      list (no expiry) or by the timer callback. */
  function EnterBy(s: Sys, id: Id, expiry: Option<nat>): Sys
    requires id in s.live
  {
    match expiry
    case None => Enter(s, id)
    case Some(k) =>
      var svc := s.live[id];
      var svc' := svc.(timerx := expiry);
      Enter(Log(s.(live := s.live[id := svc']), Fired(id, k)), id)
  }

  lemma EnterIsEntry(s: Sys, id: Id, expiry: Option<nat>)
    requires id in s.live
    ensures var svc := s.live[id];
            EnterBy(s, id, expiry) == s.(live := s.live[id := Entered(svc, expiry)], running := Running(id),
              history := s.history.(log := s.history.log + EntryEvents(id, svc, expiry)))
  {
    var svc, log := s.live[id], s.history.log;
    var pending := if expiry.Some? then expiry else svc.timerx;
    var raised := if svc.started && pending.Some? then [Raised(id, pending.value)] else [];
    var fired := if expiry.Some? then [Fired(id, expiry.value)] else [];
    assert log + EntryEvents(id, svc, expiry) == log + fired + [Resumed(id)] + raised;
    assert EnterBy(s, id, expiry).live == s.live[id := Entered(svc, expiry)];
  }

  /** Entering a service: its events are exactly these, and a service that had been
      entered before has its pending Timeout thrown and cleared. */
  lemma EnterKeeps(s: Sys, id: Id, expiry: Option<nat>)
    requires Idle(s) && id in s.live
    ensures var svc, r := s.live[id], EnterBy(s, id, expiry);
            && Mid(r, id)
            && r.history.log == s.history.log + EntryEvents(id, svc, expiry)
            && (svc.started ==> r.live[id].timerx.None?)
            && (!svc.started ==> r.live[id].timerx == expiry)
  {
    EnterIsEntry(s, id, expiry);
    EntryKeepsLog(s.history.log, s.live.Keys, s.nextId, id, s.live[id], expiry);
    EntryKeepsTimeouts(s.history.log, s.live, s.nextId, id, expiry);
    assert ServiceTimeoutsOk(s.history.log, id, s.live[id]);
    EnteredIsMid(s, EnterBy(s, id, expiry), id, expiry);
  }

  lemma EnteredIsMid(s: Sys, r: Sys, id: Id, expiry: Option<nat>)
    requires TimersOk(s) && LiveOk(s) && id in s.live
    requires r == s.(live := r.live, running := Running(id), history := s.history.(log := r.history.log))
    requires r.live == s.live[id := Entered(s.live[id], expiry)]
    requires LogOk(r.history.log, s.live.Keys, s.nextId) && TimeoutsOk(r.history.log, r.live, s.nextId)
    ensures Mid(r, id)
  {
    assert r.live.Keys == s.live.Keys;
    assert LiveOk(r) by {
      RenamedLive(s, r, id);
    }
  }

  lemma RenamedLive(s: Sys, r: Sys, id: Id)
    requires LiveOk(s) && id in s.live && r.live.Keys == s.live.Keys && r.nextId == s.nextId
    requires forall x :: x in s.live ==> r.live[x].sock == s.live[x].sock
    requires r.registry == s.registry && r.fdset == s.fdset && r.history.added == s.history.added
    ensures LiveOk(r)
  {
  }

  lemma ActsKeepMid(s: Sys, id: Id, acts: seq<Act>)
    requires Mid(s, id)
    ensures Mid(DoActs(s, acts), id) && SameButTimersAndSpawns(s, DoActs(s, acts))
  {
    ActsAreLocal(s, acts);
    SpawnsKeepLog(s, DoActs(s, acts));
  }

  lemma DeleteKeepsTimers(s: Sys, id: Id)
    requires TimersOk(s)
    ensures TimersOk(DoDelete(s, id))
  {
    UnlinkAllKeepsTimers(s.timers, s.history.agendas, s.live.Keys, id);
    assert (s.live - {id}).Keys == s.live.Keys - {id};
  }

  lemma TimeoutsWithout(log: seq<Event>, live: map<Id, Service>, nextId: Id, id: Id)
    requires TimeoutsOk(log, live, nextId)
    ensures TimeoutsOk(log, live - {id}, nextId)
  {
    forall x | x in live - {id} ensures ServiceTimeoutsOk(log, x, (live - {id})[x]) {
      assert ServiceTimeoutsOk(log, x, live[x]);
    }
  }

  lemma LeaveKeeps(s: Sys, id: Id, exits: bool)
    requires Mid(s, id)
    ensures Idle(Leave(s, id, exits)) && Left(s, Leave(s, id, exits), id, exits)
  {
    hide LogOk, TimeoutsOk, Represents, AgendasOk, LiveOk;
    var log := s.history.log;
    LeaveKeepsLive(s, id, exits);
    if exits {
      var s1 := Log(s.(registry := s.registry - {s.live[id].sock}, running := Main, schedCaller := Some(id)),
                    Back(id, true));
      assert Leave(s, id, exits) == DoDelete(s1, id);
      DeleteKeepsTimers(s1, id);
      LogDelete(log, id, s.live.Keys, s.nextId);
      assert log + [Back(id, true)] + [Deleted(id)] == log + [Back(id, true), Deleted(id)];
      assert (s.live - {id}).Keys == s.live.Keys - {id};
      TimeoutsOneMore(log, Back(id, true), s.live, s.nextId);
      TimeoutsOneMore(log + [Back(id, true)], Deleted(id), s.live, s.nextId);
      TimeoutsWithout(log + [Back(id, true), Deleted(id)], s.live, s.nextId, id);
    } else {
      LogOneMore(log, Back(id, false), s.live.Keys, s.nextId);
      TimeoutsOneMore(log, Back(id, false), s.live, s.nextId);
    }
  }

  lemma LeaveKeepsLive(s: Sys, id: Id, exits: bool)
    requires LiveOk(s) && id in s.live
    ensures LiveOk(Leave(s, id, exits)) && s.fdset == map[] && id < s.nextId
  {
  }

  /** What leaving changes. */
  ghost predicate Left(s: Sys, r: Sys, id: Id, exits: bool) {
    && r.phase == s.phase && r.nextId == s.nextId && r.schedCaller == Some(id)
    && r.history.reported == s.history.reported && r.history.served == s.history.served
    && r.live.Keys == (if exits then s.live.Keys - {id} else s.live.Keys)
    && r.ready == (if exits then Without(s.ready, id) else s.ready)
    && r.history.killed == (if exits && s.phase.Expiring? then s.history.killed + {id} else s.history.killed)
    && r.history.log == s.history.log + if exits then [Back(id, true), Deleted(id)] else [Back(id, false)]
  }

  /** What a turn of service id changes: it may spawn services, it dies exactly when it
      exits, and these are all its events. */
  ghost predicate TurnTaken(s: Sys, r: Sys, id: Id, expiry: Option<nat>, exits: bool)
    requires id in s.live
  {
    && r.phase == s.phase && s.nextId <= r.nextId && r.schedCaller == Some(id)
    && r.history.reported == s.history.reported && r.history.served == s.history.served
    && (forall x :: x in r.live <==> !(exits && x == id) && (x in s.live || s.nextId <= x < r.nextId))
    && r.ready == (if exits then Without(s.ready, id) else s.ready)
    && r.history.killed == (if exits && s.phase.Expiring? then s.history.killed + {id} else s.history.killed)
    && r.history.log == s.history.log + EntryEvents(id, s.live[id], expiry)
                        + if exits then [Back(id, true), Deleted(id)] else [Back(id, false)]
  }

  function TurnBy(s: Sys, id: Id, expiry: Option<nat>, turn: Turn): Sys
    requires id in s.live && TimersOk(EnterBy(s, id, expiry))
  {
    ActsKeepLive(EnterBy(s, id, expiry), turn.acts);
    Leave(DoActs(EnterBy(s, id, expiry), turn.acts), id, turn.exits)
  }

  lemma TurnKeeps(s: Sys, id: Id, expiry: Option<nat>, turn: Turn)
    requires Idle(s) && id in s.live
    ensures TimersOk(EnterBy(s, id, expiry))
    ensures Idle(TurnBy(s, id, expiry, turn)) && TurnTaken(s, TurnBy(s, id, expiry, turn), id, expiry, turn.exits)
  {
    var s1 := EnterBy(s, id, expiry);
    EnterKeeps(s, id, expiry);
    EnterIsEntry(s, id, expiry);
    ActsKeepMid(s1, id, turn.acts);
    var s2 := DoActs(s1, turn.acts);
    LeaveKeeps(s2, id, turn.exits);
    TurnComposed(s, s1, s2, Leave(s2, id, turn.exits), id, expiry, turn.exits);
  }

  /** A turn does what its acts do: wheels, registry and services are afterwards as they
      leave them, but that a service that exits is gone from all of these. */
  lemma TurnPerforms(s: Sys, id: Id, expiry: Option<nat>, turn: Turn)
    requires Idle(s) && id in s.live
    ensures TimersOk(EnterBy(s, id, expiry))
    ensures var m, r := DoActs(EnterBy(s, id, expiry), turn.acts), TurnBy(s, id, expiry, turn);
            && id in m.live && m.live[id].sock == s.live[id].sock && r.aborted == m.aborted
            && r.history.added == m.history.added && r.fdset == m.fdset
            && if turn.exits then
                 && r.live == m.live - {id} && r.timers == UnlinkAll(m.timers, id)
                 && r.history.agendas == CancelAll(m.history.agendas, id)
                 && r.registry == m.registry - {s.live[id].sock}
               else
                 && r.live == m.live && r.timers == m.timers && r.registry == m.registry
                 && r.history.agendas == m.history.agendas
  {
    hide LogOk, TimeoutsOk, TimersOk, EntryEvents;
    EnterKeeps(s, id, expiry);
    EnterIsEntry(s, id, expiry);
    ActsKeepMid(EnterBy(s, id, expiry), id, turn.acts);
  }

  lemma TurnComposed(s: Sys, s1: Sys, s2: Sys, r: Sys, id: Id, expiry: Option<nat>, exits: bool)
    requires id in s.live && SameButTimersAndSpawns(s1, s2) && Left(s2, r, id, exits)
    requires s1 == s.(live := s.live[id := Entered(s.live[id], expiry)], running := Running(id),
                      history := s.history.(log := s.history.log + EntryEvents(id, s.live[id], expiry)))
    ensures TurnTaken(s, r, id, expiry, exits)
  {
  }

  // ---- the pass ----------------------------------------------------------------------------

  lemma {:induction false} RemainingKilled(ids: seq<Id>, killed: set<Id>, id: Id)
    ensures Remaining(ids, killed + {id}) == Without(Remaining(ids, killed), id)
  {
    if ids != [] {
      RemainingKilled(ids[1..], killed, id);
      WithoutAppend(if ids[0] in killed then [] else [ids[0]], Remaining(ids[1..], killed), id);
    }
  }

  lemma {:induction false} RemainingSubset(ids: seq<Id>, killed: set<Id>, x: Id)
    ensures x in Remaining(ids, killed) <==> x in ids && x !in killed
  {
    if ids != [] {
      RemainingSubset(ids[1..], killed, x);
      assert x in ids <==> x == ids[0] || x in ids[1..];
    }
  }

  lemma {:induction false} RemainingNoDup(ids: seq<Id>, killed: set<Id>)
    requires NoDup(ids)
    ensures NoDup(Remaining(ids, killed))
  {
    if ids != [] {
      RemainingNoDup(ids[1..], killed);
      RemainingSubset(ids[1..], killed, ids[0]);
    }
  }

  lemma {:induction false} WithoutAbsent(xs: seq<Id>, x: Id)
    ensures x !in xs ==> Without(xs, x) == xs
    ensures forall y :: y in Without(xs, x) <==> y in xs && y != x
  {
    if xs != [] {
      WithoutAbsent(xs[1..], x);
      assert forall y :: y in xs <==> y == xs[0] || y in xs[1..];
    }
  }

  lemma ReportKeeps(s: Sys, fds: seq<int>, now: Timespec)
    requires Inv(s) && now.Normal() && NoDup(fds) && forall i :: 0 <= i < |fds| ==> fds[i] in s.registry
    ensures Inv(DoReport(s, fds, now))
    ensures var r := DoReport(s, fds, now);
            && r.ready == r.history.reported && |r.ready| == |fds|
            && forall i :: 0 <= i < |fds| ==> r.ready[i] == s.registry[fds[i]]
  {
    var r := DoReport(s, fds, now);
    ReportedAreLive(s, fds, r.ready);
    NothingKilled(r.ready);
    assert PassOk(r) by {
      assert [] + r.ready == r.ready;
    }
    assert TimersOk(r) && LiveOk(r);
  }

  lemma ReportedAreLive(s: Sys, fds: seq<int>, ids: seq<Id>)
    requires LiveOk(s) && NoDup(fds) && |ids| == |fds|
    requires forall i :: 0 <= i < |fds| ==> fds[i] in s.registry && ids[i] == s.registry[fds[i]]
    ensures NoDup(ids) && forall id :: id in ids ==> id in s.live
  {
    forall i | 0 <= i < |ids| ensures ids[i] in s.live && s.live[ids[i]].sock == fds[i] {
      RegisteredIsLive(s, fds[i]);
    }
  }

  lemma RegisteredIsLive(s: Sys, fd: int)
    requires LiveOk(s) && fd in s.registry
    ensures s.registry[fd] in s.live && s.live[s.registry[fd]].sock == fd
  {
  }

  lemma {:induction false} NothingKilled(ids: seq<Id>)
    ensures Remaining(ids, {}) == ids
  {
    if ids != [] {
      NothingKilled(ids[1..]);
    }
  }

  lemma FireKeeps(s: Sys, id: Id, turn: Turn)
    requires Idle(s) && PassOk(s) && s.phase.Expiring? && id in s.live
    ensures Inv(DoFire(s, id, turn))
    ensures TurnTaken(s, DoFire(s, id, turn), id, Some(s.phase.timerx), turn.exits)
  {
    var expiry := Some(s.phase.timerx);
    TurnKeeps(s, id, expiry, turn);
    var r := DoFire(s, id, turn);
    assert r == TurnBy(s, id, expiry, turn);
    FirePass(s, r, id, expiry, turn.exits);
  }

  lemma FirePass(s: Sys, r: Sys, id: Id, expiry: Option<nat>, exits: bool)
    requires PassOk(s) && s.phase.Expiring? && id in s.live && TurnTaken(s, r, id, expiry, exits)
    ensures PassOk(r)
  {
    RemainingKilled(s.history.reported, s.history.killed, id);
    WithoutAbsent(s.ready, id);
    assert [] + s.ready == s.ready && [] + Without(s.ready, id) == Without(s.ready, id);
  }

  lemma PoppedKeeps(s: Sys, k: nat, now: Timespec)
    requires Inv(s) && k < |s.timers| && now.Normal()
    ensures Inv(PopExpired(s, k, now).1)
  {
    hide LogOk, TimeoutsOk;
    PopKeepsTimers(s, k, now);
  }

  lemma TimersMove(s: Sys, phase: Phase)
    requires Inv(s) && s.phase.Expiring?
    requires phase == Draining || (phase.Expiring? && phase.now == s.phase.now)
    ensures Inv(s.(phase := phase))
  {
  }

  lemma ExpireKeeps(s: Sys, turn: Turn)
    requires Inv(s) && s.phase.Expiring?
    ensures Inv(DoExpire(s, turn))
  {
    hide TimersOk, LiveOk, LogOk, TimeoutsOk, DoFire, PopExpired;
    var k, now := s.phase.timerx, s.phase.now;
    if k >= |s.timers| {
      TimersMove(s, Draining);
    } else {
      var (o, s1) := PopExpired(s, k, now);
      PopKeepsTimers(s, k, now);
      PoppedKeeps(s, k, now);
      if o.Some? {
        FireKeeps(s1, o.value, turn);
      } else {
        TimersMove(s1, Expiring(k + 1, now));
      }
    }
  }

  lemma DrainKeeps(s: Sys, turn: Turn)
    requires Inv(s) && s.phase == Draining
    ensures Inv(DoDrain(s, turn))
    ensures s.ready != [] ==>
              var id := s.ready[0];
              var r := DoDrain(s, turn);
              && id in s.live && r.ready == s.ready[1..] && r.history.served == s.history.served + [id]
              && r.history.log == s.history.log + EntryEvents(id, s.live[id], None)
                                  + if turn.exits then [Back(id, true), Deleted(id)] else [Back(id, false)]
  {
    if s.ready != [] {
      var id := s.ready[0];
      var s1 := s.(ready := s.ready[1..], history := s.history.(served := s.history.served + [id]));
      assert id in s.ready;
      TurnKeeps(s1, id, None, turn);
      var r := DoDrain(s, turn);
      assert r == TurnBy(s1, id, None, turn);
      DrainPass(s, s1, r, turn.exits);
    }
  }

  lemma DrainPass(s: Sys, s1: Sys, r: Sys, exits: bool)
    requires PassOk(s) && s.phase == Draining && s.ready != [] && s.ready[0] in s1.live
    requires s1 == s.(ready := s.ready[1..], history := s.history.(served := s.history.served + [s.ready[0]]))
    requires TurnTaken(s1, r, s.ready[0], None, exits)
    ensures PassOk(r) && r.ready == s.ready[1..]
  {
    hide NoDup, EntryEvents, Remaining;
    RemainingNoDup(s.history.reported, s.history.killed);
    FirstIsOnce(s.history.served, s.ready);
    WithoutAbsent(s1.ready, s.ready[0]);
    forall x | x in s1.ready ensures x in s.ready && x in r.live {
    }
  }

  lemma FirstIsOnce(served: seq<Id>, ready: seq<Id>)
    requires NoDup(served + ready) && ready != []
    ensures ready[0] !in ready[1..] && served + ready == (served + [ready[0]]) + ready[1..]
  {
    var all := served + ready;
    assert all[|served|] == ready[0];
    assert forall i :: 0 <= i < |ready| - 1 ==> all[|served| + 1 + i] == ready[1..][i];
  }

  lemma SetupKeeps(s: Sys, act: Act)
    requires Inv(s) && s.phase == Waiting
    ensures Inv(DoAct(s, act))
  {
    ActIsLocal(s, act);
    SpawnsKeepLog(s, DoAct(s, act));
  }

  /** Every step keeps the invariant. */
  lemma StepKeeps(s: Sys, step: Step)
    requires Inv(s)
    ensures Inv(DoStep(s, step))
  {
    match step
    case Setup(act) => if s.phase == Waiting { SetupKeeps(s, act); }
    case Report(fds, now) =>
      if DoStep(s, step) != s {
        ReportKeeps(s, fds, now);
      }
    case Expire(turn) => if s.phase.Expiring? { ExpireKeeps(s, turn); }
    case Drain(turn) => if s.phase == Draining { DrainKeeps(s, turn); }
  }

  // ---- every run ------------------------------------------------------------------------

  /** A scheduler just made, with timers that hold nothing. */
  function Init(timers: seq<Wheel<Id>>): Sys {
    Sys(map[], 0, timers, map[], map[], [], Waiting, Main, None, false,
        History([], seq(|timers|, _ => []), [], [], {}, {}))
  }

  ghost predicate Fresh(timers: seq<Wheel<Id>>) {
    forall k :: 0 <= k < |timers| ==> Represents(timers[k], [])
  }

  ghost function RunAll(s: Sys, steps: seq<Step>): Sys
    requires Inv(s)
    decreases |steps|
  {
    if steps == [] then s
    else
      StepKeeps(s, steps[0]);
      RunAll(DoStep(s, steps[0]), steps[1..])
  }

  lemma InitHolds(timers: seq<Wheel<Id>>)
    requires Fresh(timers)
    ensures Inv(Init(timers))
  {
  }

  lemma {:induction false} RunKeeps(s: Sys, steps: seq<Step>)
    requires Inv(s)
    ensures Inv(RunAll(s, steps))
    decreases |steps|
  {
    if steps != [] {
      StepKeeps(s, steps[0]);
      RunKeeps(DoStep(s, steps[0]), steps[1..]);
    }
  }

  lemma {:induction false} RunOneMore(s: Sys, steps: seq<Step>, step: Step)
    requires Inv(s)
    ensures Inv(RunAll(s, steps)) && RunAll(s, steps + [step]) == DoStep(RunAll(s, steps), step)
    decreases |steps|
  {
    hide TimersOk, LiveOk, PassOk, LogOk, TimeoutsOk, DoStep;
    RunKeeps(s, steps);
    StepKeeps(RunAll(s, steps), step);
    if steps == [] {
      assert steps + [step] == [step] && [step][1..] == [];
    } else {
      StepKeeps(s, steps[0]);
      assert (steps + [step])[0] == steps[0] && (steps + [step])[1..] == steps[1..] + [step];
      RunOneMore(DoStep(s, steps[0]), steps[1..], step);
    }
  }

  /** The state after any run from a fresh scheduler. */
  ghost predicate Reachable(s: Sys) {
    exists timers, steps :: Fresh(timers) && Inv(Init(timers)) && s == RunAll(Init(timers), steps)
  }

  lemma ReachableHolds(s: Sys)
    requires Reachable(s)
    ensures Inv(s)
  {
    var timers, steps :| Fresh(timers) && Inv(Init(timers)) && s == RunAll(Init(timers), steps);
    RunKeeps(Init(timers), steps);
  }

  lemma ReachNext(s: Sys, step: Step)
    requires Inv(s) && Reachable(s)
    ensures Inv(DoStep(s, step)) && Reachable(DoStep(s, step))
  {
    hide TimersOk, LiveOk, PassOk, LogOk, TimeoutsOk, DoStep, Fresh;
    StepKeeps(s, step);
    var timers, steps :| Fresh(timers) && Inv(Init(timers)) && s == RunAll(Init(timers), steps);
    RunOneMore(Init(timers), steps, step);
  }

  /** Whatever is waiting to be resumed -- in the ready list, in a slot of a wheel, or
      registered with epoll -- has not been deleted. */
  lemma OnlyLiveServicesWait(s: Sys)
    requires Reachable(s)
    ensures forall id :: id in s.ready ==> id in s.live
    ensures forall k, x, id :: 0 <= k < |s.timers| && 0 <= x < |s.timers[k].slots| && id in s.timers[k].slots[x] ==>
              id in s.live
    ensures forall fd :: fd in s.registry ==> s.registry[fd] in s.live && s.live[s.registry[fd]].sock == fd
  {
    ReachableHolds(s);
    forall k, x, id | 0 <= k < |s.timers| && 0 <= x < |s.timers[k].slots| && id in s.timers[k].slots[x]
      ensures id in s.live
    {
      var e := SlotEntry(s, k, x, id);
    }
    forall fd | fd in s.registry ensures s.registry[fd] in s.live && s.live[s.registry[fd]].sock == fd {
      RegisteredIsLive(s, fd);
    }
  }

  /** What epoll watches, in every reachable state: for each live service whose add it took
      its own descriptor, and nothing else. */
  lemma RegistryIsExact(s: Sys, fd: int, id: Id)
    requires Reachable(s)
    ensures fd in s.registry && s.registry[fd] == id <==>
            id in s.live && id in s.history.added && s.live[id].sock == fd
  {
    hide TimersOk, LogOk, TimeoutsOk, PassOk, Reachable;
    ReachableHolds(s);
  }

  lemma SlotEntry(s: Sys, k: nat, x: nat, id: Id) returns (e: Entry<Id>)
    requires TimersOk(s) && k < |s.timers| && x < |s.timers[k].slots| && id in s.timers[k].slots[x]
    ensures e in s.history.agendas[k] && e == Entry(id, s.timers[k].At(x))
  {
    var w, a := s.timers[k], s.history.agendas[k];
    assert w.slots[x] == DueAt(a, w.At(x));
    e := DueEntry(a, w.At(x), id);
  }

  lemma {:induction false} DueEntry(a: seq<Entry<Id>>, t: int, id: Id) returns (e: Entry<Id>)
    requires id in DueAt(a, t)
    ensures e in a && e == Entry(id, t)
  {
    if a[0] == Entry(id, t) {
      e := a[0];
    } else {
      e := DueEntry(a[1..], t, id);
    }
  }

  /** A deleted service was live once and is gone for good: it is deleted exactly when it
      has given control back with null, it has no event afterwards -- no resumption in
      particular, although it may have been reported in the same pass -- and every service
      not live has been deleted. */
  lemma DeletedOnceAndForGood(s: Sys)
    requires Reachable(s)
    ensures var log := s.history.log;
            && (forall j :: 0 <= j < |log| && log[j].Deleted? ==> log[j].id !in s.live)
            && (forall id: Id :: id < s.nextId && id !in s.live ==> Deleted(id) in log)
            && (forall i, j :: 0 <= i < j < |log| && log[i].Deleted? ==> log[j].id != log[i].id)
            && (forall j :: 0 <= j < |log| && log[j].Deleted? ==> j > 0 && log[j - 1] == Back(log[j].id, true))
            && (forall j :: 0 <= j < |log| && log[j].Back? && log[j].isNull ==>
          j + 1 < |log| && log[j + 1] == Deleted(log[j].id))
  {
    ReachableHolds(s);
  }

  /** At epoll_wait the ready list is empty and the last pass has resumed each reported
      service exactly once, in the order reported, but for those deleted while timers ran;
      and the scheduler's own context is running. */
  lemma PassResumesReported(s: Sys)
    requires Reachable(s) && s.phase == Waiting
    ensures s.ready == [] && s.running == Main
    ensures s.history.served == Remaining(s.history.reported, s.history.killed) && NoDup(s.history.served)
  {
    ReachableHolds(s);
    assert s.history.served + [] == s.history.served;
    RemainingNoDup(s.history.reported, s.history.killed);
  }

  /** A service sits in at most one slot of at most one wheel. */
  lemma AtMostOneSlot(s: Sys, id: Id, j: nat, x: nat, k: nat, y: nat)
    requires Reachable(s) && j < |s.timers| && k < |s.timers|
    requires x < |s.timers[j].slots| && y < |s.timers[k].slots|
    requires id in s.timers[j].slots[x] && id in s.timers[k].slots[y]
    ensures j == k && x == y
  {
    hide LiveOk, PassOk, LogOk, TimeoutsOk, Reachable;
    ReachableHolds(s);
    var e := SlotEntry(s, j, x, id);
    var f := SlotEntry(s, k, y, id);
    if j == k {
      var a := s.history.agendas[j];
      var p, q :| 0 <= p < |a| && a[p] == e && 0 <= q < |a| && a[q] == f;
      GridStep(s.timers[j], x, y);
      GridStep(s.timers[j], y, x);
    }
  }

  /** Every Timeout thrown carries the wheel of that service's latest expiry, and there is
      exactly one for each expiry but for two cases: the only entry so far was by an
      expiry, whose Timeout is still pending; or the first two entries were by expiries,
      the first of which is lost for good. */
  lemma TimeoutsMatchExpiries(s: Sys, id: Id)
    requires Reachable(s)
    ensures RaisesFollowFires(s.history.log)
    ensures var log, entries := s.history.log, EntriesOf(s.history.log, id);
            && Fires(log, id) == Raises(log, id) + (if Pending(entries) || Lost(entries) then 1 else 0)
            && (id in s.live ==> (s.live[id].timerx.Some? <==> Pending(entries)))
  {
    ReachableHolds(s);
    assert ExpiriesCounted(s.history.log, id);
    assert id in s.live ==> ServiceTimeoutsOk(s.history.log, id, s.live[id]);
  }

  /** When a Timeout gets lost: a turn of service id loses one exactly when the timer
      callback enters a service that still has an expiry pending; and never twice. */
  lemma WhenTimeoutsAreLost(s: Sys, id: Id, expiry: Option<nat>, turn: Turn)
    requires Idle(s) && id in s.live && TimersOk(EnterBy(s, id, expiry))
    ensures var before, after := EntriesOf(s.history.log, id), EntriesOf(TurnBy(s, id, expiry, turn).history.log, id);
            && after == before + [expiry.Some?]
            && (Lost(after) <==> Lost(before) || (s.live[id].timerx.Some? && expiry.Some?))
            && (Lost(before) ==> s.live[id].timerx.None?)
  {
    TurnKeeps(s, id, expiry, turn);
    assert ServiceTimeoutsOk(s.history.log, id, s.live[id]);
    EntryCounts(s.history.log, id, s.live[id], expiry, id);
    OneMoreEntry(EntriesOf(s.history.log, id), expiry.Some?);
    BackEnters(s.history.log + EntryEvents(id, s.live[id], expiry), id, turn.exits);
  }

  lemma BackEnters(log: seq<Event>, id: Id, exits: bool)
    ensures EntriesOf(log + if exits then [Back(id, true), Deleted(id)] else [Back(id, false)], id)
            == EntriesOf(log, id)
    ensures Raises(log + if exits then [Back(id, true), Deleted(id)] else [Back(id, false)], id) == Raises(log, id)
  {
    CountsOneMore(log, Back(id, exits), id);
    if exits {
      CountsOneMore(log + [Back(id, true)], Deleted(id), id);
      assert log + [Back(id, true), Deleted(id)] == log + [Back(id, true)] + [Deleted(id)];
    }
  }

  /** An expiry throws its Timeout at once exactly when the service had been entered
      before; a resumption from the ready list throws one exactly when such an expiry is
      still pending. */
  lemma WhenTimeoutsAreThrown(s: Sys, id: Id, expiry: Option<nat>, turn: Turn)
    requires Idle(s) && id in s.live && TimersOk(EnterBy(s, id, expiry))
    ensures var svc, r := s.live[id], TurnBy(s, id, expiry, turn);
            && (svc.started && expiry.Some? ==>
                  s.history.log + [Fired(id, expiry.value), Resumed(id), Raised(id, expiry.value)] <= r.history.log)
            && Raises(r.history.log, id) == Raises(s.history.log, id)
                 + if svc.started && (expiry.Some? || svc.timerx.Some?) then 1 else 0
  {
    TurnKeeps(s, id, expiry, turn);
    LoggedRaises(s.history.log, TurnBy(s, id, expiry, turn).history.log, id, s.live[id], expiry, turn.exits);
  }

  lemma LoggedRaises(log: seq<Event>, after: seq<Event>, id: Id, svc: Service, expiry: Option<nat>, exits: bool)
    requires expiry.None? ==> !EndsFired(log, id)
    requires after == log + EntryEvents(id, svc, expiry)
                      + if exits then [Back(id, true), Deleted(id)] else [Back(id, false)]
    ensures svc.started && expiry.Some? ==>
              log + [Fired(id, expiry.value), Resumed(id), Raised(id, expiry.value)] <= after
    ensures Raises(after, id) == Raises(log, id)
                                 + if svc.started && (expiry.Some? || svc.timerx.Some?) then 1 else 0
  {
    var entered := log + EntryEvents(id, svc, expiry);
    EntryCounts(log, id, svc, expiry, id);
    BackEnters(entered, id, exits);
    if svc.started && expiry.Some? {
      var events := [Fired(id, expiry.value), Resumed(id), Raised(id, expiry.value)];
      assert EntryEvents(id, svc, expiry) == events;
    }
  }

  /** del of a descriptor in fdset takes it, and nothing else, out of fdset and epoll. */
  lemma DelRemoves(s: Sys, fd: int, other: int)
    requires fd in s.fdset
    ensures var (found, r) := DoDel(s, fd);
            && found && fd !in r.fdset && fd !in r.registry
            && (other != fd && other in s.registry ==> other in r.registry && r.registry[other] == s.registry[other])
            && (other != fd && other in s.fdset ==> other in r.fdset && r.fdset[other] == s.fdset[other])
            && r == s.(fdset := r.fdset, registry := r.registry)
  {
  }

  /** del finds nothing, ever: add does not fill fdset. */
  lemma DelFindsNothing(s: Sys, fd: int)
    requires Reachable(s)
    ensures DoDel(s, fd) == (false, s)
  {
    ReachableHolds(s);
  }

  // ---- timers that are due are called back ----------------------------------------------

  predicate Targets(turn: Turn, id: Id) {
    exists a :: a in turn.acts && a.SetTimer? && a.target == id
  }

  /** Service id was called back for wheel k, at or after position `from` of the log. */
  ghost predicate CalledBack(log: seq<Event>, from: nat, id: Id, k: nat) {
    exists j :: from <= j < |log| && log[j] == Fired(id, k)
  }

  /** It was not, for any wheel. */
  ghost predicate NotCalledBack(log: seq<Event>, from: nat, id: Id) {
    forall j :: from <= j < |log| ==> !(log[j].Fired? && log[j].id == id)
  }

  lemma {:induction false} ActsKeepEntry(s: Sys, acts: seq<Act>, k: nat, e: Entry<Id>)
    requires TimersOk(s) && k < |s.timers| && e in s.history.agendas[k]
    requires forall a :: a in acts && a.SetTimer? ==> a.target != e.obj
    ensures TimersOk(DoActs(s, acts)) && |DoActs(s, acts).timers| == |s.timers|
    ensures e in DoActs(s, acts).history.agendas[k]
    decreases |acts|
  {
    if acts != [] {
      assert acts[0] in acts && acts == [acts[0]] + acts[1..];
      DoActKeepsTimers(s, acts[0]);
      ActKeepsEntry(s, acts[0], k, e);
      ActsKeepEntry(DoAct(s, acts[0]), acts[1..], k, e);
    }
  }

  lemma ActKeepsEntry(s: Sys, act: Act, k: nat, e: Entry<Id>)
    requires TimersOk(s) && k < |s.timers| && e in s.history.agendas[k]
    requires act.SetTimer? ==> act.target != e.obj
    ensures |DoAct(s, act).timers| == |s.timers| && |DoAct(s, act).history.agendas| == |s.timers|
    ensures e in DoAct(s, act).history.agendas[k]
  {
    hide Represents, AgendasOk, Wheel<Id>.Insert, Wheel<Id>.Index;
    if act.SetTimer? {
      CancelKeeps(s.history.agendas[k], act.target, e);
    }
  }

  /** A callback for another service keeps an entry that its turn does not set anew. */
  lemma FireKeepsEntry(s: Sys, id: Id, turn: Turn, k: nat, e: Entry<Id>)
    requires Idle(s) && PassOk(s) && id in s.live && s.phase.Expiring?
    requires k < |s.timers| && e in s.history.agendas[k] && e.obj != id
    ensures var r := DoFire(s, id, turn);
            && Inv(r) && r.phase == s.phase && |r.timers| == |s.timers| && s.history.log <= r.history.log
            && NotCalledBack(r.history.log, |s.history.log|, e.obj)
            && (!Targets(turn, e.obj) ==> e in r.history.agendas[k])
  {
    hide LogOk, TimeoutsOk, LiveOk, PassOk, Represents, AgendasOk, DoAct;
    var expiry := Some(s.phase.timerx);
    FireKeeps(s, id, turn);
    EnterIsEntry(s, id, expiry);
    TurnPerforms(s, id, expiry, turn);
    var s1, r := EnterBy(s, id, expiry), DoFire(s, id, turn);
    assert r == TurnBy(s, id, expiry, turn);
    EventsOfOne(s.history.log, r.history.log, id, s.live[id], expiry, turn.exits, e.obj);
    ActsKeepShape(s1, turn.acts);
    if !Targets(turn, e.obj) {
      ActsKeepEntry(s1, turn.acts, k, e);
      CancelKeeps(DoActs(s1, turn.acts).history.agendas[k], id, e);
    }
  }

  lemma {:induction false} ActsKeepShape(s: Sys, acts: seq<Act>)
    requires TimersOk(s)
    ensures TimersOk(DoActs(s, acts)) && |DoActs(s, acts).timers| == |s.timers|
    decreases |acts|
  {
    hide Represents, AgendasOk, Wheel<Id>.Insert, Wheel<Id>.Index;
    if acts != [] {
      DoActKeepsTimers(s, acts[0]);
      ActsKeepShape(DoAct(s, acts[0]), acts[1..]);
    }
  }

  lemma EventsOfOne(log: seq<Event>, after: seq<Event>, id: Id, svc: Service, expiry: Option<nat>, exits: bool, x: Id)
    requires x != id
    requires after == log + EntryEvents(id, svc, expiry)
                      + if exits then [Back(id, true), Deleted(id)] else [Back(id, false)]
    ensures log <= after && NotCalledBack(after, |log|, x)
  {
    var more := EntryEvents(id, svc, expiry) + if exits then [Back(id, true), Deleted(id)] else [Back(id, false)];
    assert after == log + more;
    assert forall j :: 0 <= j < |more| ==> !(more[j].Fired? && more[j].id == x);
    assert forall j :: |log| <= j < |after| ==> after[j] == more[j - |log|];
  }

  /** One round of the timer phase, as one pending timer e of wheel k sees it: if its service
      is called back, then for this wheel, and the timer was due; if not, the timer is still
      there unless the turn set it anew, and a due one is never passed over. */
  ghost predicate RoundSeen(s: Sys, r: Sys, k: nat, e: Entry<Id>, targeted: bool)
    requires s.phase.Expiring?
  {
    && |r.timers| == |s.timers| && s.history.log <= r.history.log
    && (|| (CalledBack(r.history.log, |s.history.log|, e.obj, k) && e.due <= s.phase.now.Value())
        || (&& NotCalledBack(r.history.log, |s.history.log|, e.obj)
            && (!targeted ==> k < |r.history.agendas| && e in r.history.agendas[k])
            && (e.due <= s.phase.now.Value() && s.phase.timerx <= k ==>
                  r.phase.Expiring? && r.phase.now == s.phase.now && r.phase.timerx <= k)
            && (r.phase.Expiring? ==> r.phase.now == s.phase.now)))
  }

  lemma ExpireSeen(s: Sys, turn: Turn, k: nat, e: Entry<Id>)
    requires Inv(s) && s.phase.Expiring? && k < |s.timers| && e in s.history.agendas[k]
    ensures Inv(DoExpire(s, turn)) && RoundSeen(s, DoExpire(s, turn), k, e, Targets(turn, e.obj))
  {
    hide LogOk, TimeoutsOk, LiveOk, Represents, DoFire, PopExpired, Targets;
    ExpireKeeps(s, turn);
    var x, now := s.phase.timerx, s.phase.now;
    if x < |s.timers| {
      var (o, s1) := PopExpired(s, x, now);
      PopsEarliestDue(s, x, now);
      PopLeavesRest(s, x, now);
      PopKeepsTimers(s, x, now);
      if o.Some? {
        var a := s.history.agendas[x];
        PoppedKeeps(s, x, now);
        if o.value == e.obj {
          PoppedIsTheEntry(s, x, k, e);
          CallsBack(s1, o.value, turn);
        } else {
          KeptByPop(s, x, k, e);
          FireKeepsEntry(s1, o.value, turn, k, e);
        }
      }
    }
  }

  lemma PopLeavesRest(s: Sys, x: nat, now: Timespec)
    requires TimersOk(s) && x < |s.timers| && now.Normal()
    ensures var s1 := PopExpired(s, x, now).1;
            s1 == s.(timers := s1.timers, history := s.history.(agendas := s1.history.agendas))
            && |s1.timers| == |s.timers|
  {
  }

  /** The service popped from wheel x has its only entry there. */
  lemma PoppedIsTheEntry(s: Sys, x: nat, k: nat, e: Entry<Id>)
    requires TimersOk(s) && x < |s.timers| && k < |s.timers| && e in s.history.agendas[k]
    requires s.history.agendas[x] != []
    requires s.history.agendas[x][Earliest(s.history.agendas[x])].obj == e.obj
    ensures x == k && s.history.agendas[x][Earliest(s.history.agendas[x])] == e
  {
    hide Earliest, DueAt, OnGrid;
    var a := s.history.agendas[x];
    assert a[Earliest(a)] in a;
    assert Represents(s.timers[x], a);
    if x == k {
      SameEntry(a, Earliest(a), e);
    }
  }

  lemma KeptByPop(s: Sys, x: nat, k: nat, e: Entry<Id>)
    requires TimersOk(s) && x < |s.timers| && k < |s.timers| && e in s.history.agendas[k]
    requires s.history.agendas[x] != []
    requires s.history.agendas[x][Earliest(s.history.agendas[x])].obj != e.obj
    ensures var a := s.history.agendas[x]; e in s.history.agendas[x := Drop(a, Earliest(a))][k]
  {
    hide Earliest, DueAt, OnGrid;
    if x == k {
      assert Represents(s.timers[x], s.history.agendas[x]);
      DropKeepsSetOnce(s.history.agendas[x], Earliest(s.history.agendas[x]));
    }
  }

  lemma CallsBack(s: Sys, id: Id, turn: Turn)
    requires Idle(s) && PassOk(s) && s.phase.Expiring? && id in s.live
    ensures var r := DoFire(s, id, turn);
            && r.phase == s.phase && |r.timers| == |s.timers| && s.history.log <= r.history.log
            && CalledBack(r.history.log, |s.history.log|, id, s.phase.timerx)
  {
    hide LogOk, TimeoutsOk, LiveOk, PassOk, Represents, AgendasOk, DoAct;
    var expiry := Some(s.phase.timerx);
    FireKeeps(s, id, turn);
    EnterIsEntry(s, id, expiry);
    TurnPerforms(s, id, expiry, turn);
    assert DoFire(s, id, turn) == TurnBy(s, id, expiry, turn);
    ActsKeepShape(EnterBy(s, id, expiry), turn.acts);
    assert DoFire(s, id, turn).history.log[|s.history.log|] == Fired(id, s.phase.timerx);
  }

  predicate AllExpire(steps: seq<Step>) {
    forall j :: 0 <= j < |steps| ==> steps[j].Expire?
  }

  /** Until service o is called back, no turn sets its timer. */
  ghost predicate SparedUntilCalled(s: Sys, steps: seq<Step>, o: Id)
    requires Inv(s) && AllExpire(steps)
    decreases |steps|
  {
    steps == [] ||
    (StepKeeps(s, steps[0]);
     var r := DoStep(s, steps[0]);
     || (exists k :: CalledBack(r.history.log, |s.history.log|, o, k))
     || (!Targets(steps[0].turn, o) && SparedUntilCalled(r, steps[1..], o)))
  }

  /** No turn of the script sets o's timer. */
  ghost predicate Spares(script: nat -> Turn, o: Id) {
    forall n :: !Targets(script(n), o)
  }

  /** Rounds of the timer phase with turns from the script; a round without a service to call
      back may have any turn. */
  ghost predicate Scripted(steps: seq<Step>, script: nat -> Turn) {
    forall j :: 0 <= j < |steps| ==>
      steps[j].Expire? && (steps[j].turn.acts == [] || exists n :: steps[j].turn == script(n))
  }

  lemma {:induction false} ScriptSpares(s: Sys, steps: seq<Step>, script: nat -> Turn, o: Id)
    requires Inv(s) && Scripted(steps, script) && Spares(script, o)
    ensures AllExpire(steps) && SparedUntilCalled(s, steps, o)
    decreases |steps|
  {
    hide TimersOk, LiveOk, LogOk, TimeoutsOk, PassOk, DoStep;
    if steps != [] {
      StepKeeps(s, steps[0]);
      ScriptSpares(DoStep(s, steps[0]), steps[1..], script, o);
      assert !Targets(steps[0].turn, o);
    }
  }

  lemma {:induction false} LogGrows(s: Sys, steps: seq<Step>)
    requires Inv(s) && AllExpire(steps)
    ensures s.history.log <= RunAll(s, steps).history.log
    decreases |steps|
  {
    hide TimersOk, LiveOk, LogOk, TimeoutsOk, PassOk, DoExpire;
    if steps != [] {
      StepKeeps(s, steps[0]);
      if s.phase.Expiring? {
        ExpireLogGrows(s, steps[0].turn);
      }
      LogGrows(DoStep(s, steps[0]), steps[1..]);
    }
  }

  lemma ExpireLogGrows(s: Sys, turn: Turn)
    requires Inv(s) && s.phase.Expiring?
    ensures s.history.log <= DoExpire(s, turn).history.log
  {
    hide LogOk, TimeoutsOk, LiveOk, Represents, DoFire, PopExpired;
    var x, now := s.phase.timerx, s.phase.now;
    if x < |s.timers| {
      var (o, s1) := PopExpired(s, x, now);
      PopLeavesRest(s, x, now);
      PopKeepsTimers(s, x, now);
      if o.Some? {
        PoppedKeeps(s, x, now);
        CallsBack(s1, o.value, turn);
      }
    }
  }

  /** Main result on the timer phase: every timer that is due when the phase reaches its
      wheel, and that no turn sets anew before, is called back for that wheel. */
  lemma {:induction false} DueIsCalledBack(s: Sys, steps: seq<Step>, k: nat, e: Entry<Id>)
    requires Inv(s) && s.phase.Expiring? && s.phase.timerx <= k < |s.timers| && e in s.history.agendas[k]
    requires e.due <= s.phase.now.Value() && AllExpire(steps) && SparedUntilCalled(s, steps, e.obj)
    requires RunAll(s, steps).phase == Draining
    ensures CalledBack(RunAll(s, steps).history.log, |s.history.log|, e.obj, k)
    decreases |steps|
  {
    hide TimersOk, LiveOk, LogOk, TimeoutsOk, PassOk, DoExpire, Targets;
    var turn, rest := steps[0].turn, steps[1..];
    var r := DoStep(s, steps[0]);
    ExpireSeen(s, turn, k, e);
    LogGrows(r, rest);
    var log := RunAll(r, rest).history.log;
    if CalledBack(r.history.log, |s.history.log|, e.obj, k) {
      var j :| |s.history.log| <= j < |r.history.log| && r.history.log[j] == Fired(e.obj, k);
      assert log[j] == Fired(e.obj, k);
    } else {
      DueIsCalledBack(r, rest, k, e);
      var j :| |r.history.log| <= j < |log| && log[j] == Fired(e.obj, k);
    }
  }

  /** And one that is not due is not called back for, but kept, whatever else is. */
  lemma {:induction false} EarlyIsKept(s: Sys, steps: seq<Step>, k: nat, e: Entry<Id>)
    requires Inv(s) && s.phase.Expiring? && k < |s.timers| && e in s.history.agendas[k]
    requires e.due > s.phase.now.Value() && AllExpire(steps)
    requires forall j :: 0 <= j < |steps| ==> !Targets(steps[j].turn, e.obj)
    ensures var r := RunAll(s, steps);
            && k < |r.history.agendas| && e in r.history.agendas[k]
            && NotCalledBack(r.history.log, |s.history.log|, e.obj)
    decreases |steps|
  {
    hide TimersOk, LiveOk, LogOk, TimeoutsOk, PassOk, DoExpire, Targets;
    assert |s.history.agendas| == |s.timers| by { AgendasMatch(s); }
    if steps != [] {
      var turn, rest := steps[0].turn, steps[1..];
      var r := DoStep(s, steps[0]);
      ExpireSeen(s, turn, k, e);
      LogGrows(r, rest);
      if r.phase.Expiring? {
        EarlyIsKept(r, rest, k, e);
      } else {
        IdleSteps(r, rest);
      }
    }
  }

  lemma AgendasMatch(s: Sys)
    requires TimersOk(s)
    ensures |s.history.agendas| == |s.timers|
  {
  }

  lemma {:induction false} IdleSteps(s: Sys, steps: seq<Step>)
    requires Inv(s) && AllExpire(steps) && !s.phase.Expiring?
    ensures RunAll(s, steps) == s
    decreases |steps|
  {
    if steps != [] {
      IdleSteps(s, steps[1..]);
    }
  }

  /** The phase leaves a wheel exactly when nothing in its agenda is due. */
  lemma LeavesNothingDue(s: Sys, turn: Turn)
    requires Inv(s) && s.phase.Expiring? && s.phase.timerx < |s.timers|
    ensures var k, r := s.phase.timerx, DoExpire(s, turn);
            && (AllLater(s.history.agendas[k], s.phase.now.Value()) ==>
                  r.phase == Expiring(k + 1, s.phase.now) && r.history == s.history)
            && (!AllLater(s.history.agendas[k], s.phase.now.Value()) ==> r.phase == s.phase)
  {
    hide LogOk, TimeoutsOk, LiveOk, Represents, DoFire, PopExpired;
    var k, now := s.phase.timerx, s.phase.now;
    var (o, s1) := PopExpired(s, k, now);
    PopsEarliestDue(s, k, now);
    PopLeavesRest(s, k, now);
    PopKeepsTimers(s, k, now);
    if o.Some? {
      PoppedKeeps(s, k, now);
      CallsBack(s1, o.value, turn);
    }
  }
}
