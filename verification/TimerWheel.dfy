/** The timer wheel of evtimer.hpp as a value: slot i holds, oldest first, the objects
    whose timer runs out i granules after the epoch. */
module TimerWheel {
  import opened Agenda
  import opened Clock
  import opened Options

  datatype Wheel<Obj(==)> = Wheel(epoch: Timespec, incr: Timespec, incrMs: int, slots: seq<seq<Obj>>) {

    ghost predicate Valid() {
      && epoch.WeaklyNormal()
      && incr.nsec >= 0
      && incrMs >= 1
      && incr.Value() == Granule()
      && |slots| >= 1
    }

    function Granule(): int { incrMs * 1_000_000 }

    /** The instant slot i is due. */
    function At(i: int): int { epoch.Value() + i * Granule() }

    /** Milliseconds from the epoch to a deadline `ms` from `now`. */
    function Delay(now: Timespec, ms: int): int { Millisecs(Minus(now, epoch)) + ms }

    function Index(now: Timespec, ms: int): int
      requires incrMs >= 1
    {
      var x := TruncDiv(Delay(now, ms), incrMs);
      if x > |slots| then |slots| - 1 else x
    }

    function Unlink(o: Obj): Wheel<Obj> {
      this.(slots := seq(|slots|, i requires 0 <= i < |slots| => Without(slots[i], o)))
    }

    function Push(x: nat, o: Obj): Wheel<Obj>
      requires x < |slots|
    {
      this.(slots := slots[x := slots[x] + [o]])
    }

    /** None is the process abort of CircArray::operator[]. */
    function Insert(now: Timespec, ms: int, o: Obj): Option<Wheel<Obj>>
      requires incrMs >= 1
    {
      var x := Index(now, ms);
      if 0 <= x < |slots| then Some(Unlink(o).Push(x, o)) else None
    }

    function Pop(): Wheel<Obj>
      requires |slots| >= 1 && slots[0] != []
    {
      this.(slots := slots[0 := slots[0][1..]])
    }

    function Tick(): Wheel<Obj>
      requires |slots| >= 1
    {
      this.(epoch := Plus(epoch, incr), slots := slots[1..] + slots[..1])
    }

    /** Granules the epoch may still advance before it has passed `now`. */
    ghost function Lag(now: Timespec): nat {
      if now.Value() < epoch.Value() then 0 else now.Value() - epoch.Value() + 1
    }

    /** The next object expire(now) hands to its callback, or None when its loops end. */
    function Next(now: Timespec): (r: (Option<Obj>, Wheel<Obj>))
      requires Valid() && now.Normal()
      ensures r.1.Valid() && r.1.incrMs == incrMs && |r.1.slots| == |slots|
      ensures r.0.None? <==> r.1.epoch.Value() > now.Value()
      ensures r.1.epoch != epoch ==> r.1.epoch.Value() <= now.Value() + Granule()
      ensures r.1.epoch.Value() >= epoch.Value()
      decreases Lag(now)
    {
      AtMostIsOrder(epoch, now);
      PlusIsExact(epoch, incr);
      if !AtMost(epoch, now) then (None, this)
      else if slots[0] != [] then (Some(slots[0][0]), Pop())
      else Tick().Next(now)
    }
  }

  /** The wheel holds exactly the agenda's entries, slot by slot and in order. */
  ghost predicate Represents<Obj>(w: Wheel<Obj>, a: seq<Entry<Obj>>) {
    && w.Valid()
    && SetOnce(a)
    && (forall i :: 0 <= i < |w.slots| ==> w.slots[i] == DueAt(a, w.At(i)))
    && (forall e :: e in a ==> OnGrid(w, e.due))
  }

  ghost predicate OnGrid<Obj>(w: Wheel<Obj>, t: int) {
    exists i :: 0 <= i < |w.slots| && t == w.At(i)
  }

  // ---- the grid of instants ----------------------------------------------

  lemma GridStep<Obj>(w: Wheel<Obj>, i: int, j: int)
    requires w.incrMs >= 1
    ensures w.At(i + 1) == w.At(i) + w.Granule()
    ensures i < j ==> w.At(i) + w.Granule() <= w.At(j)
    ensures w.At(i) == w.At(j) <==> i == j
  {
    OneMore(i, w.Granule());
    if i < j {
      ProductOrder(i + 1, j, w.Granule());
    } else if j < i {
      OneMore(j, w.Granule());
      ProductOrder(j + 1, i, w.Granule());
    }
  }

  lemma TickShiftsGrid<Obj>(w: Wheel<Obj>, i: int)
    requires w.Valid()
    ensures w.Tick().Valid() && w.Tick().At(i) == w.At(i + 1)
  {
    PlusIsExact(w.epoch, w.incr);
    OneMore(i, w.Granule());
  }

  // ---- each wheel operation is the agenda operation -----------------------

  lemma InsertSetsTimer<Obj>(w: Wheel<Obj>, a: seq<Entry<Obj>>, now: Timespec, ms: int, o: Obj)
    requires Represents(w, a) && 0 <= w.Index(now, ms) < |w.slots|
    ensures w.Insert(now, ms, o).Some?
    ensures Represents(w.Insert(now, ms, o).value, Set(a, o, w.At(w.Index(now, ms))))
  {
    PushRepresents(w, a, w.Index(now, ms), o);
  }

  lemma PushRepresents<Obj>(w: Wheel<Obj>, a: seq<Entry<Obj>>, x: nat, o: Obj)
    requires Represents(w, a) && x < |w.slots|
    ensures Represents(w.Unlink(o).Push(x, o), Set(a, o, w.At(x)))
  {
    var w', due := w.Unlink(o).Push(x, o), w.At(x);
    var a' := Set(a, o, due);
    SetKeepsSetOnce(a, o, due);
    forall i | 0 <= i < |w'.slots| ensures w'.slots[i] == DueAt(a', w'.At(i)) {
      PushedSlot(w, a, x, o, i);
    }
    forall e | e in a' ensures OnGrid(w', e.due) {
      if e == Entry(o, due) {
        assert e.due == w'.At(x);
      } else {
        CancelKeeps(a, o, e);
        var i :| 0 <= i < |w.slots| && e.due == w.At(i);
        assert e.due == w'.At(i);
      }
    }
  }

  lemma PushedSlot<Obj>(w: Wheel<Obj>, a: seq<Entry<Obj>>, x: nat, o: Obj, i: nat)
    requires w.Valid() && x < |w.slots| && i < |w.slots|
    requires w.slots[i] == DueAt(a, w.At(i))
    ensures w.Unlink(o).Push(x, o).slots[i] == DueAt(Set(a, o, w.At(x)), w.At(i))
  {
    DueAtCancel(a, o, w.At(i));
    DueAtAppend(Cancel(a, o), [Entry(o, w.At(x))], w.At(i));
    GridStep(w, i, x);
    assert DueAt([Entry(o, w.At(x))], w.At(i)) == if i == x then [o] else [];
  }

  lemma PopServesEarliest<Obj>(w: Wheel<Obj>, a: seq<Entry<Obj>>) returns (k: nat)
    requires Represents(w, a) && w.slots[0] != []
    ensures IsEarliest(a, k) && a[k] == Entry(w.slots[0][0], w.epoch.Value())
    ensures Represents(w.Pop(), Drop(a, k))
  {
    assert w.At(0) == w.epoch.Value();
    k := OldestAt(a, w.At(0));
    forall j | 0 <= j < |a| ensures a[j].due >= w.At(0) {
      assert a[j] in a;
      var i :| 0 <= i < |w.slots| && a[j].due == w.At(i);
      GridStep(w, 0, i);
    }
    var w', a' := w.Pop(), Drop(a, k);
    DropKeepsSetOnce(a, k);
    forall i | 0 <= i < |w'.slots| ensures w'.slots[i] == DueAt(a', w'.At(i)) {
      PoppedSlot(w, a, k, i);
    }
    forall e | e in a' ensures OnGrid(w', e.due) {
      assert OnGrid(w, e.due);
      var i :| 0 <= i < |w.slots| && e.due == w.At(i);
      assert e.due == w'.At(i);
    }
  }

  lemma PoppedSlot<Obj>(w: Wheel<Obj>, a: seq<Entry<Obj>>, k: nat, i: nat)
    requires w.Valid() && i < |w.slots| && w.slots[0] != [] && w.slots[i] == DueAt(a, w.At(i))
    requires k < |a| && a[k] == Entry(w.slots[0][0], w.At(0)) && forall j :: 0 <= j < k ==> a[j].due != w.At(0)
    ensures w.Pop().slots[i] == DueAt(Drop(a, k), w.At(i))
  {
    DropOldest(a, k, w.At(i));
    GridStep(w, 0, i);
  }

  lemma TickKeepsAgenda<Obj>(w: Wheel<Obj>, a: seq<Entry<Obj>>)
    requires Represents(w, a) && w.slots[0] == []
    ensures Represents(w.Tick(), a)
    ensures AllLater(a, w.epoch.Value())
  {
    var w', n := w.Tick(), |w.slots|;
    TickShiftsGrid(w, 0);
    DueAtEmpty(a, w.At(0));
    forall e | e in a ensures OnGrid(w', e.due) && e.due > w.epoch.Value() {
      var i :| 0 <= i < n && e.due == w.At(i);
      assert w.At(0) == w.epoch.Value();
      TickShiftsGrid(w, i - 1);
      GridStep(w, 0, i);
      assert 0 <= i - 1 < |w'.slots| && e.due == w'.At(i - 1);
    }
    forall i | 0 <= i < n ensures w'.slots[i] == DueAt(a, w'.At(i)) {
      TickShiftsGrid(w, i);
      if i == n - 1 {
        DueAtEmpty(a, w'.At(i));
        forall e | e in a ensures e.due != w'.At(i) {
          var j :| 0 <= j < n && e.due == w.At(j);
          GridStep(w, j, n);
        }
      }
    }
  }

  /** Main result for expire: the wheel is a stable priority queue.  The object handed
      to the callback is the earliest pending one, first in first out among equals, and
      it is due; when expire stops, nothing due at or before `now` is left.  Nothing
      else changes. */
  lemma {:induction false} NextIsEarliestDue<Obj>(w: Wheel<Obj>, a: seq<Entry<Obj>>, now: Timespec) returns (k: nat)
    requires Represents(w, a) && now.Normal()
    ensures w.Next(now).0.None? ==> AllLater(a, now.Value()) && Represents(w.Next(now).1, a)
    ensures w.Next(now).0.Some? ==>
              && IsEarliest(a, k)
              && a[k].obj == w.Next(now).0.value
              && a[k].due == w.Next(now).1.epoch.Value() <= now.Value()
              && Represents(w.Next(now).1, Drop(a, k))
    decreases w.Lag(now)
  {
    k := 0;
    AtMostIsOrder(w.epoch, now);
    if !AtMost(w.epoch, now) {
      forall e | e in a ensures e.due > now.Value() {
        var i :| 0 <= i < |w.slots| && e.due == w.At(i);
        GridStep(w, 0, i);
      }
    } else if w.slots[0] != [] {
      k := PopServesEarliest(w, a);
    } else {
      TickKeepsAgenda(w, a);
      PlusIsExact(w.epoch, w.incr);
      k := NextIsEarliestDue(w.Tick(), a, now);
    }
  }

  // ---- when a timer fires -------------------------------------------------

  /** What `insert` does with a deadline d, in full.  Slot arithmetic is exact to the
      nanosecond: truncating to milliseconds first loses nothing, because a granule is a
      whole number of milliseconds.  The process aborts exactly when d falls in the one
      granule just past the wheel, or (almost) a granule or more before the epoch. */
  lemma InsertOutcome<Obj>(w: Wheel<Obj>, now: Timespec, ms: int, o: Obj)
    requires w.Valid() && now.Normal()
    ensures var d, x, n := now.Value() + ms * 1_000_000, w.Index(now, ms), |w.slots|;
            && (w.Insert(now, ms, o).None? <==>
                  w.At(n) <= d < w.At(n + 1) || d < w.epoch.Value() - w.Granule() + 1_000_000)
            && (w.At(n + 1) <= d ==> x == n - 1)
            && (w.epoch.Value() <= d < w.At(n) ==> 0 <= x < n && w.At(x) <= d < w.At(x) + w.Granule())
            && (w.epoch.Value() - w.Granule() + 1_000_000 <= d < w.epoch.Value() ==> x == 0)
  {
    DelayIsExact(w, now, ms);
    var n, x := |w.slots|, TruncDiv(w.Delay(now, ms), w.incrMs);
    GridStep(w, x, n);
    GridStep(w, n, x);
    GridStep(w, n + 1, x);
    GridStep(w, x, n + 1);
  }

  lemma DelayIsExact<Obj>(w: Wheel<Obj>, now: Timespec, ms: int)
    requires w.Valid() && now.Normal()
    ensures var d, x := now.Value() + ms * 1_000_000, TruncDiv(w.Delay(now, ms), w.incrMs);
            && (d >= w.epoch.Value() ==> x >= 0 && w.At(x) <= d < w.At(x) + w.Granule())
            && (d < w.epoch.Value() ==> x <= 0 && (x == 0 <==> d >= w.epoch.Value() - w.Granule() + 1_000_000))
  {
    MinusIsExact(now, w.epoch);
    MillisecsIsFloor(Minus(now, w.epoch));
    RegroupProduct(TruncDiv(w.Delay(now, ms), w.incrMs), w.incrMs);
  }

  lemma RegroupProduct(x: int, y: int)
    ensures x * (y * 1_000_000) == x * y * 1_000_000
  {
  }

  // ---- construction -------------------------------------------------------

  /** The EvTimer constructor: `secsMax * 1000u / granularityMs + 1` slots, computed
      in 32 bits. */
  function Make<Obj>(secsMax: nat, granularityMs: int, start: Timespec): Wheel<Obj>
    requires granularityMs > 0
  {
    var incr := Timespec(granularityMs / 1000, granularityMs * 1_000_000);
    Wheel(start, incr, incr.sec * 1000 + TruncDiv(incr.nsec, 1_000_000),
          seq(secsMax * 1000 % 0x1_0000_0000 / granularityMs + 1, _ => []))
  }

  /** A new wheel is empty and well formed, but its granule is the requested one only
      below one second: from 1000 ms on, the whole seconds are counted twice. */
  lemma MakeIsEmpty<Obj>(secsMax: nat, granularityMs: int, start: Timespec)
    requires granularityMs > 0 && start.Normal()
    ensures var w := Make<Obj>(secsMax, granularityMs, start);
            && Represents(w, [])
            && w.Granule() == (granularityMs + granularityMs / 1000 * 1000) * 1_000_000
            && (w.Granule() == granularityMs * 1_000_000 <==> granularityMs < 1000)
            && w.epoch == start
            && (|w.slots| - 1) * granularityMs <= secsMax * 1000 % 0x1_0000_0000 < |w.slots| * granularityMs
  {
    var w := Make<Obj>(secsMax, granularityMs, start);
    WholeMilliseconds(granularityMs);
    assert w.incrMs == granularityMs + granularityMs / 1000 * 1000;
    SlotCountPositive(secsMax, granularityMs);
    DivisionBounds(secsMax * 1000 % 0x1_0000_0000, granularityMs);
    OneMore(|w.slots| - 1, granularityMs);
    assert w.Valid();
  }

  lemma WholeMilliseconds(ms: nat)
    ensures TruncDiv(ms * 1_000_000, 1_000_000) == ms
  {
    DivisionBounds(ms * 1_000_000, 1_000_000);
  }

  lemma SlotCountPositive(secsMax: nat, granularityMs: int)
    requires granularityMs > 0
    ensures secsMax * 1000 % 0x1_0000_0000 / granularityMs >= 0
  {
    DivisionBounds(secsMax * 1000 % 0x1_0000_0000, granularityMs);
  }

  /** After expire(now) has run, no insert made before the new epoch is reached aborts
      or is clamped, for any delay up to the wheel's nominal span. */
  lemma NoAbortAfterExpire<Obj>(secsMax: nat, granularityMs: int, start: Timespec, before: Wheel<Obj>,
                                now: Timespec, at: Timespec, ms: int, o: Obj)
    requires granularityMs > 0 && secsMax * 1000 < 0x1_0000_0000 && now.Normal() && at.Normal()
    requires before.Valid()
    requires before.incrMs == Make<Obj>(secsMax, granularityMs, start).incrMs
    requires |before.slots| == |Make<Obj>(secsMax, granularityMs, start).slots|
    requires before.epoch.Value() <= now.Value() + before.Granule()
    requires before.Next(now).0.None?
    requires now.Value() <= at.Value() <= before.Next(now).1.epoch.Value()
    requires 1 <= ms <= 1000 * secsMax
    ensures var w := before.Next(now).1;
            && w.Insert(at, ms, o).Some?
            && w.Index(at, ms) == TruncDiv(w.Delay(at, ms), w.incrMs)
  {
    var w, n := before.Next(now).1, |before.slots|;
    var d, x := at.Value() + ms * 1_000_000, TruncDiv(w.Delay(at, ms), w.incrMs);
    SpanCovered<Obj>(secsMax, granularityMs, start);
    RegroupProduct(n, w.incrMs);
    assert w.epoch.Value() - w.Granule() + 1_000_000 <= d < w.At(n);
    InsertOutcome(w, at, ms, o);
    DelayIsExact(w, at, ms);
    GridStep(w, n, x);
  }

  lemma SpanCovered<Obj>(secsMax: nat, granularityMs: int, start: Timespec)
    requires granularityMs > 0 && secsMax * 1000 < 0x1_0000_0000
    ensures var w := Make<Obj>(secsMax, granularityMs, start);
            secsMax * 1000 < |w.slots| * w.incrMs
  {
    var w := Make<Obj>(secsMax, granularityMs, start);
    DivisionBounds(secsMax * 1000, granularityMs);
    OneMore(secsMax * 1000 / granularityMs, granularityMs);
    MultiplyOrder(granularityMs, w.incrMs, |w.slots|);
  }

  lemma MultiplyOrder(x: int, y: int, z: int)
    requires x <= y && z >= 0
    ensures z * x <= z * y
  {
  }

  // ---- runs: inserts and services in any order ----------------------------

  datatype Rearm<+Obj> = Rearm(at: Timespec, ms: int, obj: Obj)

  /** One step of a wheel's life: an insert, or one round of expire(now) up to the next
      callback or the end of its loops.  Callbacks that set timers are Arm steps between
      two Serve steps. */
  datatype Op<+Obj> = Arm(r: Rearm<Obj>) | Serve(now: Timespec)

  datatype Answer<+Obj> = Answer(now: Timespec, served: Option<Obj>)

  ghost predicate Clocked<Obj>(ops: seq<Op<Obj>>) {
    forall op :: op in ops ==> if op.Arm? then op.r.at.Normal() else op.now.Normal()
  }

  /** The answers of the Serve steps; the run ends early if the process aborts. */
  function Run<Obj>(w: Wheel<Obj>, ops: seq<Op<Obj>>): seq<Answer<Obj>>
    requires w.Valid() && Clocked(ops)
    decreases |ops|
  {
    if ops == [] then []
    else
      assert ops[0] in ops;
      match ops[0]
      case Arm(r) =>
        var w' := w.Insert(r.at, r.ms, r.obj);
        if w'.None? then [] else Run(w'.value, ops[1..])
      case Serve(now) =>
        var (o, w') := w.Next(now);
        [Answer(now, o)] + Run(w', ops[1..])
  }

  /** Each round of expire is answered by what it hands over, from the wheel as the steps
      before have left it. */
  lemma RunServes<Obj>(w: Wheel<Obj>, now: Timespec, ops: seq<Op<Obj>>)
    requires w.Valid() && now.Normal() && Clocked(ops)
    ensures Clocked([Serve(now)] + ops)
    ensures Run(w, [Serve(now)] + ops) == [Answer(now, w.Next(now).0)] + Run(w.Next(now).1, ops)
  {
    var all := [Serve(now)] + ops;
    assert all[0] == Serve(now) && all[1..] == ops;
  }

  /** An insert changes the wheel for the steps after it, or ends the run. */
  lemma RunArms<Obj>(w: Wheel<Obj>, r: Rearm<Obj>, ops: seq<Op<Obj>>)
    requires w.Valid() && r.at.Normal() && Clocked(ops)
    ensures Clocked([Arm(r)] + ops)
    ensures var w' := w.Insert(r.at, r.ms, r.obj);
            Run(w, [Arm(r)] + ops) == if w'.None? then [] else Run(w'.value, ops)
  {
    var all := [Arm(r)] + ops;
    assert all[0] == Arm(r) && all[1..] == ops;
  }

  ghost predicate NeverArmed<Obj>(ops: seq<Op<Obj>>, o: Obj) {
    forall op :: op in ops && op.Arm? ==> op.r.obj != o
  }

  ghost predicate Unset<Obj>(a: seq<Entry<Obj>>, o: Obj) {
    forall e :: e in a ==> e.obj != o
  }

  /** An object that is not pending and is never armed is never served. */
  lemma {:induction false} NeverServed<Obj>(w: Wheel<Obj>, a: seq<Entry<Obj>>, ops: seq<Op<Obj>>, o: Obj)
    requires Represents(w, a) && Clocked(ops) && NeverArmed(ops, o) && Unset(a, o)
    ensures forall p :: 0 <= p < |Run(w, ops)| ==> Run(w, ops)[p].served != Some(o)
    decreases |ops|
  {
    if ops != [] {
      assert ops[0] in ops;
      match ops[0]
      case Arm(r) =>
        if w.Insert(r.at, r.ms, r.obj).Some? {
          var due := w.At(w.Index(r.at, r.ms));
          InsertSetsTimer(w, a, r.at, r.ms, r.obj);
          SetKeepsSetOnce(a, r.obj, due);
          NeverServed(w.Insert(r.at, r.ms, r.obj).value, Set(a, r.obj, due), ops[1..], o);
        }
      case Serve(now) =>
        var k := NextIsEarliestDue(w, a, now);
        var (served, w') := w.Next(now);
        if served.Some? {
          DropKeepsSetOnce(a, k);
          assert a[k] in a;
          NeverServed(w', Drop(a, k), ops[1..], o);
        } else {
          NeverServed(w', a, ops[1..], o);
        }
    }
  }

  /** What a log of answers says about one entry: served at most once, never too early,
      and before any expire that starts at or after its due instant has finished. */
  ghost predicate OnTime<Obj>(log: seq<Answer<Obj>>, e: Entry<Obj>) {
    && (forall p :: 0 <= p < |log| && log[p].served == Some(e.obj) ==> log[p].now.Value() >= e.due)
    && (forall p, q :: 0 <= p < q < |log| && log[p].served == Some(e.obj) ==> log[q].served != Some(e.obj))
    && (forall p :: 0 <= p < |log| && log[p].now.Value() >= e.due && log[p].served.None? ==>
          exists q :: 0 <= q < p && log[q].served == Some(e.obj))
  }

  lemma OnTimeLater<Obj>(first: Answer<Obj>, rest: seq<Answer<Obj>>, e: Entry<Obj>)
    requires OnTime(rest, e) && first.served != Some(e.obj)
    requires first.served.None? ==> first.now.Value() < e.due
    ensures OnTime([first] + rest, e)
  {
    var log := [first] + rest;
    assert forall p :: 0 < p < |log| ==> log[p] == rest[p - 1];
    forall p | 0 <= p < |log| && log[p].now.Value() >= e.due && log[p].served.None?
      ensures exists q :: 0 <= q < p && log[q].served == Some(e.obj)
    {
      assert p > 0;
      var q :| 0 <= q < p - 1 && rest[q].served == Some(e.obj);
      assert log[q + 1].served == Some(e.obj);
    }
  }

  lemma OnTimeNow<Obj>(first: Answer<Obj>, rest: seq<Answer<Obj>>, e: Entry<Obj>)
    requires first.served == Some(e.obj) && first.now.Value() >= e.due
    requires forall p :: 0 <= p < |rest| ==> rest[p].served != Some(e.obj)
    ensures OnTime([first] + rest, e)
  {
    var log := [first] + rest;
    assert log[0] == first;
    assert forall p :: 0 < p < |log| ==> log[p] == rest[p - 1];
  }

  /** Main timing result.  A pending entry that is not re-armed is served at most once,
      never by an expire(now) with now before its due instant, and before the first
      expire(now) with now at or after it has finished -- whatever other timers are set
      and served in between, and however often the index wraps round. */
  lemma {:induction false} ServedOnTime<Obj>(w: Wheel<Obj>, a: seq<Entry<Obj>>, ops: seq<Op<Obj>>, e: Entry<Obj>)
    requires Represents(w, a) && Clocked(ops) && NeverArmed(ops, e.obj) && e in a
    ensures OnTime(Run(w, ops), e)
    decreases |ops|
  {
    if ops != [] {
      var head, tail := ops[0], ops[1..];
      assert head in ops && Clocked(tail) && NeverArmed(tail, e.obj);
      match head
      case Arm(r) =>
        if w.Insert(r.at, r.ms, r.obj).Some? {
          var due := w.At(w.Index(r.at, r.ms));
          InsertSetsTimer(w, a, r.at, r.ms, r.obj);
          SetKeepsSetOnce(a, r.obj, due);
          ServedOnTime(w.Insert(r.at, r.ms, r.obj).value, Set(a, r.obj, due), tail, e);
        }
      case Serve(now) =>
        var k := NextIsEarliestDue(w, a, now);
        var (served, w') := w.Next(now);
        var first, rest := Answer(now, served), Run(w', tail);
        if served.None? {
          ServedOnTime(w', a, tail, e);
          OnTimeLater(first, rest, e);
        } else {
          DropKeepsSetOnce(a, k);
          if a[k].obj == e.obj {
            SameEntry(a, k, e);
            NeverServed(w', Drop(a, k), tail, e.obj);
            OnTimeNow(first, rest, e);
          } else {
            ServedOnTime(w', Drop(a, k), tail, e);
            OnTimeLater(first, rest, e);
          }
        }
    }
  }

  lemma SameEntry<Obj>(a: seq<Entry<Obj>>, k: nat, e: Entry<Obj>)
    requires SetOnce(a) && k < |a| && e in a && a[k].obj == e.obj
    ensures a[k] == e
  {
    var i :| 0 <= i < |a| && a[i] == e;
  }

  /** Arming and serving together: a timer set for the deadline d = at + ms, within the
      wheel's span, is served at the first expire(now) with now at or past an instant less
      than one granule before d, or at d; for a deadline before the epoch that instant is
      the epoch itself, less than one granule late. */
  lemma ArmedTimerIsServedWithinAGranule<Obj>(w: Wheel<Obj>, a: seq<Entry<Obj>>, r: Rearm<Obj>, ops: seq<Op<Obj>>)
    returns (due: int)
    requires Represents(w, a) && r.at.Normal() && Clocked(ops) && NeverArmed(ops, r.obj)
    requires w.epoch.Value() - w.Granule() + 1_000_000 <= r.at.Value() + r.ms * 1_000_000 < w.At(|w.slots|)
    ensures due - w.Granule() < r.at.Value() + r.ms * 1_000_000 < due + w.Granule()
    ensures due > r.at.Value() + r.ms * 1_000_000 <==> r.at.Value() + r.ms * 1_000_000 < w.epoch.Value()
    ensures w.Insert(r.at, r.ms, r.obj).Some?
    ensures w.Insert(r.at, r.ms, r.obj).value.Valid()
    ensures OnTime(Run(w.Insert(r.at, r.ms, r.obj).value, ops), Entry(r.obj, due))
  {
    InsertOutcome(w, r.at, r.ms, r.obj);
    var x := w.Index(r.at, r.ms);
    due := w.At(x);
    assert w.At(0) == w.epoch.Value();
    GridStep(w, |w.slots|, |w.slots| + 1);
    GridStep(w, 0, x);
    InsertSetsTimer(w, a, r.at, r.ms, r.obj);
    ServedOnTime(w.Insert(r.at, r.ms, r.obj).value, Set(a, r.obj, due), ops, Entry(r.obj, due));
  }
}
