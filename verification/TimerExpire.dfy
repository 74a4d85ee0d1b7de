/** EvTimer::expire as a whole, with callbacks that set timers while it runs. */
module TimerExpire {
  import opened Agenda
  import opened Clock
  import opened Options
  import opened Serving
  import opened ServingEnds
  import opened TimerWheel

  function GridOf<Obj>(w: Wheel<Obj>): Grid { Grid(w.Granule(), |w.slots|) }

  /** The timers a callback sets, one after the other; None is the process abort. */
  function ArmAll<Obj(==)>(w: Wheel<Obj>, rs: seq<Rearm<Obj>>): (w': Option<Wheel<Obj>>)
    requires w.incrMs >= 1
    ensures w'.Some? ==> w'.value.epoch == w.epoch && w'.value.incr == w.incr && w'.value.incrMs == w.incrMs
    ensures w'.Some? ==> |w'.value.slots| == |w.slots|
    decreases |rs|
  {
    if rs == [] then Some(w)
    else
      var w' := w.Insert(rs[0].at, rs[0].ms, rs[0].obj);
      if w'.None? then None else ArmAll(w'.value, rs[1..])
  }

  /** The objects handed to the callback, in order, and how expire stands when it has ended
      or aborted, or after so many callbacks. */
  function Expire<Obj(==)>(w: Wheel<Obj>, now: Timespec, cb: Callback<Obj>, n: nat, calls: nat)
    : (seq<Obj>, Outcome<Wheel<Obj>>)
    requires w.Valid() && now.Normal()
    decreases calls, w.Lag(now)
  {
    AtMostIsOrder(w.epoch, now);
    PlusIsExact(w.epoch, w.incr);
    if !AtMost(w.epoch, now) then ([], Ended(w))
    else if w.slots[0] == [] then Expire(w.Tick(), now, cb, n, calls)
    else if calls == 0 then ([], Going(w))
    else
      var o := w.slots[0][0];
      var w' := ArmAll(w.Pop(), cb(n, o));
      if w'.None? then ([o], Aborted)
      else
        var (rest, out) := Expire(w'.value, now, cb, n + 1, calls - 1);
        ([o] + rest, out)
  }

  /** expire's loops end, or abort. */
  ghost predicate Ends<Obj>(w: Wheel<Obj>, now: Timespec, cb: Callback<Obj>, n: nat)
    requires w.Valid() && now.Normal()
  {
    exists calls :: !Expire(w, now, cb, n, calls).1.Going?
  }

  // ---- a timer set by a callback ---------------------------------------------

  /** The wheel's epoch is m granules past the phase. */
  ghost predicate InPhase<Obj>(w: Wheel<Obj>, phase: int, m: nat) {
    w.epoch.Value() == phase + m * w.Granule()
  }

  lemma SlotIsGridFloor<Obj>(w: Wheel<Obj>, r: Rearm<Obj>, phase: int, m: nat)
    requires w.Valid() && InPhase(w, phase, m) && r.at.Normal()
    requires w.epoch.Value() <= Deadline(r) < w.At(|w.slots|)
    ensures 0 <= w.Index(r.at, r.ms) < |w.slots|
    ensures w.At(w.Index(r.at, r.ms)) == GridFloor(phase, w.Granule(), Deadline(r))
  {
    InsertOutcome(w, r.at, r.ms, r.obj);
    GridStep(w, |w.slots|, |w.slots| + 1);
    var x := w.Index(r.at, r.ms);
    SumProduct(m, x, w.Granule());
    GridFloorUnique(phase, w.Granule(), m + x, Deadline(r));
  }

  lemma SumProduct(x: int, y: int, z: int)
    ensures (x + y) * z == x * z + y * z
  {
  }

  /** insert aborts exactly where the reference does, and otherwise its slot is due at the
      instant where the reference enters the timer. */
  lemma InsertPlaces<Obj>(w: Wheel<Obj>, r: Rearm<Obj>)
    requires w.Valid() && r.at.Normal()
    ensures var due := Place(GridOf(w), w.epoch.Value(), Deadline(r));
            && (w.Insert(r.at, r.ms, r.obj).Some? <==> due.Some?)
            && (due.Some? ==> 0 <= w.Index(r.at, r.ms) < |w.slots| && w.At(w.Index(r.at, r.ms)) == due.value)
  {
    hide GridFloor, Wheel<Obj>.Index;
    InsertOutcome(w, r.at, r.ms, r.obj);
    var n, d, e := |w.slots|, Deadline(r), w.epoch.Value();
    GridStep(w, n, n + 1);
    GridStep(w, 0, n);
    assert w.At(0) == e;
    if e <= d < w.At(n) {
      SlotIsGridFloor(w, r, e, 0);
    }
  }

  lemma {:induction false} ArmAllSetsTimers<Obj>(w: Wheel<Obj>, a: seq<Entry<Obj>>, rs: seq<Rearm<Obj>>)
    requires Represents(w, a) && forall r :: r in rs ==> r.at.Normal()
    ensures Matches(ArmAll(w, rs), SetAll(a, rs, GridOf(w), w.epoch.Value()))
    decreases |rs|
  {
    hide Represents, Place, Wheel<Obj>.Index;
    assert w.Valid() by { RepresentsValid(w, a); }
    if rs != [] {
      var r := rs[0];
      assert r in rs && rs == [r] + rs[1..];
      InsertPlaces(w, r);
      if w.Insert(r.at, r.ms, r.obj).Some? {
        InsertSetsTimer(w, a, r.at, r.ms, r.obj);
        var due := w.At(w.Index(r.at, r.ms));
        ArmAllSetsTimers(w.Insert(r.at, r.ms, r.obj).value, Set(a, r.obj, due), rs[1..]);
      }
    }
  }

  ghost predicate Matches<Obj>(w: Option<Wheel<Obj>>, a: Option<seq<Entry<Obj>>>) {
    if w.Some? then a.Some? && Represents(w.value, a.value) else a.None?
  }

  lemma RepresentsValid<Obj>(w: Wheel<Obj>, a: seq<Entry<Obj>>)
    requires Represents(w, a)
    ensures w.Valid() && SetOnce(a)
  {
  }

  // ---- expire serves the agenda --------------------------------------------------

  /** The clock's values are normal. */
  ghost predicate Timely<Obj(!new)>(cb: Callback<Obj>) {
    forall n, o, r :: r in cb(n, o) ==> r.at.Normal()
  }

  function Objs<Obj>(es: seq<Entry<Obj>>): seq<Obj> {
    seq(|es|, i requires 0 <= i < |es| => es[i].obj)
  }

  /** The same objects were handed out, and wheel and agenda stand alike: both at the end,
      both aborted, or both with more to serve. */
  ghost predicate Agrees<Obj>(x: (seq<Obj>, Outcome<Wheel<Obj>>), s: (seq<Entry<Obj>>, Outcome<seq<Entry<Obj>>>)) {
    && x.0 == Objs(s.0)
    && match x.1
       case Ended(w) => s.1.Ended? && Represents(w, s.1.state)
       case Aborted => s.1.Aborted?
       case Going(w) => s.1.Going? && Represents(w, s.1.state)
  }

  /** Main result for expire with callbacks: wheel, slots and rotating index are gone.  For
      every callback, however late the wheel, expire serves the agenda as a stable priority
      queue until nothing is due, and aborts exactly when that does. */
  lemma {:induction false} ExpireServesAgenda<Obj(!new)>(w: Wheel<Obj>, a: seq<Entry<Obj>>, now: Timespec,
                                                         cb: Callback<Obj>, n: nat, calls: nat)
    requires Represents(w, a) && now.Normal() && Timely(cb)
    ensures Agrees(Expire(w, now, cb, n, calls), ServeAll(a, now.Value(), cb, n, GridOf(w), calls))
    decreases calls, w.Lag(now)
  {
    hide Represents, Agrees, SetAll, ArmAll, Earliest;
    RepresentsValid(w, a);
    AtMostIsOrder(w.epoch, now);
    if !AtMost(w.epoch, now) {
      StopAgrees(w, a, now, cb, n, calls);
    } else if w.slots[0] == [] {
      PlusIsExact(w.epoch, w.incr);
      TickKeepsAgenda(w, a);
      assert GridOf(w.Tick()) == GridOf(w);
      ExpireServesAgenda(w.Tick(), a, now, cb, n, calls);
    } else {
      var rs := cb(n, w.slots[0][0]);
      FireStep(w, a, rs);
      var w2, a2 := ArmAll(w.Pop(), rs), SetAll(Drop(a, Earliest(a)), rs, GridOf(w), w.epoch.Value());
      if calls > 0 && w2.Some? {
        assert w2.value.Valid() by { RepresentsValid(w2.value, a2.value); }
        assert GridOf(w2.value) == GridOf(w);
        ExpireServesAgenda(w2.value, a2.value, now, cb, n + 1, calls - 1);
      }
      FireAgrees(w, a, now, cb, n, calls);
    }
  }

  lemma StopAgrees<Obj>(w: Wheel<Obj>, a: seq<Entry<Obj>>, now: Timespec, cb: Callback<Obj>, n: nat, calls: nat)
    requires Represents(w, a) && now.Normal() && !AtMost(w.epoch, now)
    ensures Agrees(Expire(w, now, cb, n, calls), ServeAll(a, now.Value(), cb, n, GridOf(w), calls))
  {
    hide Earliest;
    var _ := NextIsEarliestDue(w, a, now);
    NothingDue(a, now.Value());
  }

  /** One callback: the wheel's front object is the agenda's earliest entry, due at the
      epoch, and the timers the callback sets leave wheel and agenda in step, or abort. */
  lemma FireStep<Obj>(w: Wheel<Obj>, a: seq<Entry<Obj>>, rs: seq<Rearm<Obj>>)
    requires Represents(w, a) && w.slots[0] != [] && forall r :: r in rs ==> r.at.Normal()
    ensures a != [] && a[Earliest(a)] == Entry(w.slots[0][0], w.epoch.Value())
    ensures Matches(ArmAll(w.Pop(), rs), SetAll(Drop(a, Earliest(a)), rs, GridOf(w), w.epoch.Value()))
  {
    hide Matches, SetAll, ArmAll, Earliest;
    var k := PopServesEarliest(w, a);
    assert k == Earliest(a);
    assert GridOf(w.Pop()) == GridOf(w);
    ArmAllSetsTimers(w.Pop(), Drop(a, k), rs);
  }

  lemma FireAgrees<Obj>(w: Wheel<Obj>, a: seq<Entry<Obj>>, now: Timespec, cb: Callback<Obj>, n: nat, calls: nat)
    requires Represents(w, a) && now.Normal() && AtMost(w.epoch, now) && w.epoch.Value() <= now.Value()
    requires w.slots[0] != [] && a != [] && a[Earliest(a)] == Entry(w.slots[0][0], w.epoch.Value())
    requires var rs := cb(n, w.slots[0][0]);
             var w2, a2 := ArmAll(w.Pop(), rs), SetAll(Drop(a, Earliest(a)), rs, GridOf(w), w.epoch.Value());
             && Matches(w2, a2)
             && (calls > 0 && w2.Some? ==>
                   Agrees(Expire(w2.value, now, cb, n + 1, calls - 1),
                          ServeAll(a2.value, now.Value(), cb, n + 1, GridOf(w), calls - 1)))
    ensures Agrees(Expire(w, now, cb, n, calls), ServeAll(a, now.Value(), cb, n, GridOf(w), calls))
  {
    hide Represents, SetAll, ArmAll, Earliest;
    var e := a[Earliest(a)];
    assert w.Valid() by { RepresentsValid(w, a); }
    assert !NoneDue(a, now.Value());
    if calls > 0 {
      var _, d := ServeOne(a, now.Value(), cb, n, GridOf(w), calls);
      var a2 := SetAll(d, cb(n, e.obj), GridOf(w), e.due);
      if a2.Some? {
        ObjsFirst(e, ServeAll(a2.value, now.Value(), cb, n + 1, GridOf(w), calls - 1).0);
      } else {
        ObjsFirst(e, []);
      }
    }
  }

  lemma ObjsFirst<Obj>(e: Entry<Obj>, rest: seq<Entry<Obj>>)
    ensures Objs([e] + rest) == [e.obj] + Objs(rest)
    ensures Objs([e]) == [e.obj]
  {
  }

  // ---- when expire ends -------------------------------------------------------------

  /** An expire that has ended, or aborted, is no different with more callbacks allowed. */
  lemma {:induction false} MoreCallsSame<Obj>(w: Wheel<Obj>, now: Timespec, cb: Callback<Obj>, n: nat, calls: nat,
                                              more: nat)
    requires w.Valid() && now.Normal() && calls <= more && !Expire(w, now, cb, n, calls).1.Going?
    ensures Expire(w, now, cb, n, more) == Expire(w, now, cb, n, calls)
    decreases calls, w.Lag(now)
  {
    hide ArmAll;
    AtMostIsOrder(w.epoch, now);
    PlusIsExact(w.epoch, w.incr);
    if AtMost(w.epoch, now) {
      if w.slots[0] == [] {
        MoreCallsSame(w.Tick(), now, cb, n, calls, more);
      } else {
        var w' := ArmAll(w.Pop(), cb(n, w.slots[0][0]));
        if w'.Some? {
          MoreCallsSame(w'.value, now, cb, n + 1, calls - 1, more - 1);
        }
      }
    }
  }

  /** Given enough callbacks, expire calls back for `fired` and comes to `out`. */
  ghost predicate ExpiresTo<Obj>(w: Wheel<Obj>, now: Timespec, cb: Callback<Obj>, fired: seq<Obj>,
                                 out: Outcome<Wheel<Obj>>)
    requires w.Valid() && now.Normal()
  {
    exists calls :: Expire(w, now, cb, 0, calls) == (fired, out)
  }

  lemma ExpiresToOne<Obj>(w: Wheel<Obj>, now: Timespec, cb: Callback<Obj>, fired: seq<Obj>, out: Outcome<Wheel<Obj>>,
                          fired': seq<Obj>, out': Outcome<Wheel<Obj>>)
    requires w.Valid() && now.Normal() && !out.Going? && !out'.Going?
    requires ExpiresTo(w, now, cb, fired, out) && ExpiresTo(w, now, cb, fired', out')
    ensures fired == fired' && out == out'
  {
    hide Expire;
    var c :| Expire(w, now, cb, 0, c) == (fired, out);
    var c' :| Expire(w, now, cb, 0, c') == (fired', out');
    if c <= c' {
      MoreCallsSame(w, now, cb, 0, c, c');
    } else {
      MoreCallsSame(w, now, cb, 0, c', c);
    }
  }

  /** expire ends, or aborts, exactly when serving the agenda does. */
  lemma EndsWithServing<Obj(!new)>(w: Wheel<Obj>, a: seq<Entry<Obj>>, now: Timespec, cb: Callback<Obj>, n: nat,
                                   calls: nat)
    requires Represents(w, a) && now.Normal() && Timely(cb)
    ensures Expire(w, now, cb, n, calls).1.Going? <==> ServeAll(a, now.Value(), cb, n, GridOf(w), calls).1.Going?
  {
    hide Represents;
    ExpireServesAgenda(w, a, now, cb, n, calls);
  }

  /** On a wheel of two slots or more it ends for every callback whose deadlines lie a
      granule or more ahead. */
  lemma PatientExpireEnds<Obj(!new)>(w: Wheel<Obj>, a: seq<Entry<Obj>>, now: Timespec, cb: Callback<Obj>, n: nat)
    requires Represents(w, a) && |w.slots| >= 2 && now.Normal() && Timely(cb)
    requires Patient(cb, now.Value(), w.Granule())
    ensures Ends(w, now, cb, n)
  {
    RepresentsValid(w, a);
    var calls := PatientEnds(a, now.Value(), cb, n, GridOf(w));
    EndsWithServing(w, a, now, cb, n, calls);
  }
}
