/** The reference for EvTimer::expire with callbacks that set timers while it runs: an
    agenda served as a stable priority queue.  Of the wheel only its granule and its number
    of slots are left. */
module Serving {
  import opened Agenda
  import opened Clock
  import opened Options
  import opened TimerWheel

  /** What the callback does the n-th time expire calls it, on the object it is given:
      the timers it sets, in order. */
  type Callback<!Obj> = (nat, Obj) -> seq<Rearm<Obj>>

  /** How serving stands after a number of callbacks: at its end, at the process abort in
      a callback's set_timer, or with something still due. */
  datatype Outcome<+S> = Ended(state: S) | Aborted | Going(state: S)

  /** A wheel's granule in nanoseconds and its number of slots. */
  datatype Grid = Grid(granule: int, span: nat) {
    ghost predicate Valid() { granule >= 1_000_000 && span >= 1 }

    /** i granules after e. */
    function After(e: int, i: int): int { e + i * granule }
  }

  function Deadline<Obj>(r: Rearm<Obj>): int { r.at.Value() + r.ms * 1_000_000 }

  /** The last instant of the grid phase + k * granule that is not after d. */
  function GridFloor(phase: int, granule: int, d: int): int
    requires granule > 0
  {
    phase + (d - phase) / granule * granule
  }

  /** Where a timer with deadline d is entered while what is due at e is being served: in
      its own granule; at e itself if it is a little late; in the last slot if it is a
      granule or more past the wheel.  None is the process abort. */
  function Place(grid: Grid, e: int, d: int): (due: Option<int>)
    requires grid.Valid()
    ensures due.Some? ==> due.value >= e
  {
    GridFloorBounds(e, grid.granule, d);
    GridFloorFrom(e, grid.granule, d);
    if d < e - grid.granule + 1_000_000 then None
    else if d < e then Some(e)
    else if d < grid.After(e, grid.span) then Some(GridFloor(e, grid.granule, d))
    else if d < grid.After(e, grid.span + 1) then None
    else MultipleOf(grid.span - 1, grid.granule); Some(grid.After(e, grid.span - 1))
  }

  lemma GridFloorBounds(phase: int, granule: int, d: int)
    requires granule > 0
    ensures GridFloor(phase, granule, d) <= d < GridFloor(phase, granule, d) + granule
  {
    var q := (d - phase) / granule;
    assert d - phase == q * granule + (d - phase) % granule;
  }

  lemma GridFloorUnique(phase: int, granule: int, k: int, d: int)
    requires granule > 0 && phase + k * granule <= d < phase + k * granule + granule
    ensures GridFloor(phase, granule, d) == phase + k * granule
  {
    GridFloorBounds(phase, granule, d);
    var q := (d - phase) / granule;
    OneMore(q, granule);
    OneMore(k, granule);
    if q < k {
      ProductOrder(q + 1, k, granule);
    } else if k < q {
      ProductOrder(k + 1, q, granule);
    }
  }

  lemma GridFloorFrom(phase: int, granule: int, d: int)
    requires granule > 0
    ensures phase <= d ==> phase <= GridFloor(phase, granule, d)
    ensures phase + granule <= d ==> phase + granule <= GridFloor(phase, granule, d)
  {
    var q := (d - phase) / granule;
    GridFloorBounds(phase, granule, d);
    OneMore(q, granule);
    if q <= -1 {
      ProductOrder(q + 1, 0, granule);
    } else if q <= 0 {
      ProductOrder(q + 1, 1, granule);
    } else {
      ProductOrder(1, q, granule);
    }
  }

  lemma MultipleOf(n: nat, granule: int)
    requires granule > 0
    ensures n * granule >= 0
    ensures n >= 1 ==> n * granule >= granule
  {
    if n >= 1 {
      ProductOrder(1, n, granule);
    }
  }

  /** Setting the timers rs, one after the other, while what is due at e is served. */
  function SetAll<Obj(==)>(a: seq<Entry<Obj>>, rs: seq<Rearm<Obj>>, grid: Grid, e: int): (r: Option<seq<Entry<Obj>>>)
    requires grid.Valid()
    decreases |rs|
  {
    if rs == [] then Some(a)
    else
      var due := Place(grid, e, Deadline(rs[0]));
      if due.None? then None else SetAll(Set(a, rs[0].obj, due.value), rs[1..], grid, e)
  }

  /** One more timer is set after the others: in the last place, at its own instant, in the
      stead of its object's earlier one; and there is no result exactly when some timer has
      no place. */
  lemma {:induction false} SetAllAppend<Obj>(a: seq<Entry<Obj>>, rs: seq<Rearm<Obj>>, r: Rearm<Obj>, grid: Grid, e: int)
    requires grid.Valid()
    ensures SetAll(a, [], grid, e) == Some(a)
    ensures var before, due := SetAll(a, rs, grid, e), Place(grid, e, Deadline(r));
            SetAll(a, rs + [r], grid, e)
            == if before.None? || due.None? then None else Some(Set(before.value, r.obj, due.value))
    decreases |rs|
  {
    hide Place, Set;
    if rs == [] {
      assert rs + [r] == [r] && [r][1..] == [];
    } else {
      assert (rs + [r])[0] == rs[0] && (rs + [r])[1..] == rs[1..] + [r];
      var due := Place(grid, e, Deadline(rs[0]));
      if due.Some? {
        SetAllAppend(Set(a, rs[0].obj, due.value), rs[1..], r, grid, e);
      }
    }
  }

  /** So the last timer a callback sets for an object is pending afterwards, at its instant. */
  lemma {:induction false} LastSetIsPending<Obj>(a: seq<Entry<Obj>>, rs: seq<Rearm<Obj>>, grid: Grid, e: int, i: nat)
    requires grid.Valid() && SetAll(a, rs, grid, e).Some? && i < |rs|
    requires forall j :: i < j < |rs| ==> rs[j].obj != rs[i].obj
    ensures Place(grid, e, Deadline(rs[i])).Some?
    ensures Entry(rs[i].obj, Place(grid, e, Deadline(rs[i])).value) in SetAll(a, rs, grid, e).value
    decreases |rs|
  {
    hide Place;
    var before, last := rs[..|rs| - 1], rs[|rs| - 1];
    assert rs == before + [last];
    SetAllAppend(a, before, last, grid, e);
    if i < |before| {
      LastSetIsPending(a, before, grid, e, i);
      CancelKeeps(SetAll(a, before, grid, e).value, last.obj,
                  Entry(rs[i].obj, Place(grid, e, Deadline(rs[i])).value));
    }
  }

  predicate NoneDue<Obj>(a: seq<Entry<Obj>>, t: int) {
    a == [] || a[Earliest(a)].due > t
  }

  /** Serve the agenda until nothing is due at t, or for so many callbacks. */
  function ServeAll<Obj(==)>(a: seq<Entry<Obj>>, t: int, cb: Callback<Obj>, n: nat, grid: Grid, calls: nat)
    : (seq<Entry<Obj>>, Outcome<seq<Entry<Obj>>>)
    requires grid.Valid()
    decreases calls
  {
    if NoneDue(a, t) then ([], Ended(a))
    else if calls == 0 then ([], Going(a))
    else
      var e := a[Earliest(a)];
      var a' := SetAll(Drop(a, Earliest(a)), cb(n, e.obj), grid, e.due);
      if a'.None? then ([e], Aborted)
      else
        var (rest, out) := ServeAll(a'.value, t, cb, n + 1, grid, calls - 1);
        ([e] + rest, out)
  }

  /** The next callback, and the agenda once its timers are set. */
  lemma ServeOne<Obj>(a: seq<Entry<Obj>>, t: int, cb: Callback<Obj>, n: nat, grid: Grid, calls: nat)
    returns (e: Entry<Obj>, d: seq<Entry<Obj>>)
    requires grid.Valid() && !NoneDue(a, t) && calls > 0
    ensures IsEarliest(a, Earliest(a)) && e == a[Earliest(a)] && e in a && e.due <= t && d == Drop(a, Earliest(a))
    ensures var a1 := SetAll(d, cb(n, e.obj), grid, e.due);
            ServeAll(a, t, cb, n, grid, calls)
            == if a1.None? then ([e], Aborted)
               else var (rest, out) := ServeAll(a1.value, t, cb, n + 1, grid, calls - 1); ([e] + rest, out)
  {
    e, d := a[Earliest(a)], Drop(a, Earliest(a));
  }

  lemma NothingDue<Obj>(a: seq<Entry<Obj>>, t: int)
    ensures NoneDue(a, t) <==> AllLater(a, t)
  {
    if a != [] {
      assert a[Earliest(a)] in a;
      forall e | e in a ensures e.due >= a[Earliest(a)].due {
        var i :| 0 <= i < |a| && a[i] == e;
      }
    }
  }

  /** A run that has ended, or aborted, is no different with more callbacks allowed. */
  lemma {:induction false} MoreCalls<Obj>(a: seq<Entry<Obj>>, t: int, cb: Callback<Obj>, n: nat, grid: Grid,
                                          calls: nat, more: nat)
    requires grid.Valid() && calls <= more && !ServeAll(a, t, cb, n, grid, calls).1.Going?
    ensures ServeAll(a, t, cb, n, grid, more) == ServeAll(a, t, cb, n, grid, calls)
    decreases calls
  {
    if !NoneDue(a, t) {
      var e, d := ServeOne(a, t, cb, n, grid, calls);
      var _, _ := ServeOne(a, t, cb, n, grid, more);
      var a1 := SetAll(d, cb(n, e.obj), grid, e.due);
      if a1.Some? {
        MoreCalls(a1.value, t, cb, n + 1, grid, calls - 1, more - 1);
      }
    }
  }

  // ---- what any callback leaves true ----------------------------------------------

  /** What holds of each entry of the agenda after setting timers: it was there, or one of
      the timers is for its object and was entered at its instant. */
  ghost predicate SetBy<Obj>(e: Entry<Obj>, rs: seq<Rearm<Obj>>, grid: Grid, at: int)
    requires grid.Valid()
  {
    exists r :: r in rs && r.obj == e.obj && Place(grid, at, Deadline(r)) == Some(e.due)
  }

  lemma {:induction false} SetAllEntries<Obj>(a: seq<Entry<Obj>>, rs: seq<Rearm<Obj>>, grid: Grid, at: int)
    requires grid.Valid() && SetOnce(a) && SetAll(a, rs, grid, at).Some?
    ensures var a1 := SetAll(a, rs, grid, at).value;
            && SetOnce(a1)
            && (forall e :: e in a1 ==> e in a || SetBy(e, rs, grid, at))
            && (forall e :: e in a && (forall r :: r in rs ==> r.obj != e.obj) ==> e in a1)
    decreases |rs|
  {
    if rs != [] {
      var r, due := rs[0], Place(grid, at, Deadline(rs[0])).value;
      SetKeepsSetOnce(a, r.obj, due);
      var s, a1 := Set(a, r.obj, due), SetAll(a, rs, grid, at).value;
      SetAllEntries(s, rs[1..], grid, at);
      forall e | e in a1 && e !in a ensures SetBy(e, rs, grid, at) {
        if e in s {
          CancelKeeps(a, r.obj, e);
          assert r in rs && r.obj == e.obj;
        } else {
          var r' :| r' in rs[1..] && r'.obj == e.obj && Place(grid, at, Deadline(r')) == Some(e.due);
          assert r' in rs;
        }
      }
      assert rs == [r] + rs[1..];
    }
  }

  /** The i-th entry served was pending from the start, or an earlier service's callback
      set it. */
  ghost predicate Accounted<Obj>(a: seq<Entry<Obj>>, served: seq<Entry<Obj>>, cb: Callback<Obj>, n: nat, grid: Grid,
                                 i: nat)
    requires grid.Valid() && i < |served|
  {
    served[i] in a ||
    exists j :: 0 <= j < i && SetBy(served[i], cb(n + j, served[j].obj), grid, served[j].due)
  }

  /** Everything served was due, no instant comes before an earlier one, and nothing is
      served that was not pending or set by an earlier callback. */
  ghost predicate InDueOrder<Obj>(a: seq<Entry<Obj>>, served: seq<Entry<Obj>>, cb: Callback<Obj>, n: nat, grid: Grid,
                                  t: int)
    requires grid.Valid()
  {
    && (forall i :: 0 <= i < |served| ==> served[i].due <= t)
    && (forall i, j :: 0 <= i < j < |served| ==> served[i].due <= served[j].due)
    && (forall i :: 0 <= i < |served| ==> Accounted(a, served, cb, n, grid, i))
  }

  ghost predicate NotBefore<Obj>(a: seq<Entry<Obj>>, e: int) {
    forall x :: x in a ==> x.due >= e
  }

  lemma EarliestIsLeast<Obj>(a: seq<Entry<Obj>>, e: Entry<Obj>)
    requires a != [] && e in Drop(a, Earliest(a))
    ensures e in a && a[Earliest(a)].due <= e.due
  {
    hide Earliest;
    var d, k := Drop(a, Earliest(a)), Earliest(a);
    var i :| 0 <= i < |d| && d[i] == e;
    assert a[if i < k then i else i + 1] == e;
  }

  /** Nothing a callback sets is due before what is being served. */
  lemma StaysNotBefore<Obj>(a: seq<Entry<Obj>>, rs: seq<Rearm<Obj>>, grid: Grid)
    requires grid.Valid() && SetOnce(a) && a != []
    requires SetAll(Drop(a, Earliest(a)), rs, grid, a[Earliest(a)].due).Some?
    ensures SetOnce(SetAll(Drop(a, Earliest(a)), rs, grid, a[Earliest(a)].due).value)
    ensures NotBefore(SetAll(Drop(a, Earliest(a)), rs, grid, a[Earliest(a)].due).value, a[Earliest(a)].due)
  {
    DropKeepsSetOnce(a, Earliest(a));
    SetAllEntries(Drop(a, Earliest(a)), rs, grid, a[Earliest(a)].due);
    forall x | x in Drop(a, Earliest(a)) ensures x.due >= a[Earliest(a)].due {
      EarliestIsLeast(a, x);
    }
  }

  lemma {:induction false} ServesNotBefore<Obj>(a: seq<Entry<Obj>>, t: int, cb: Callback<Obj>, n: nat, grid: Grid,
                                                calls: nat, e: int)
    requires grid.Valid() && SetOnce(a) && NotBefore(a, e)
    ensures NotBefore(ServeAll(a, t, cb, n, grid, calls).0, e)
    decreases calls
  {
    hide SetAll, SetOnce;
    if !NoneDue(a, t) && calls > 0 {
      var x, d := ServeOne(a, t, cb, n, grid, calls);
      var a1 := SetAll(d, cb(n, x.obj), grid, x.due);
      if a1.Some? {
        StaysNotBefore(a, cb(n, x.obj), grid);
        ServesNotBefore(a1.value, t, cb, n + 1, grid, calls - 1, e);
      }
    }
  }

  /** Main result on expire with any callback, late or hasty: what is served, and in what
      order; at the end nothing is due. */
  lemma {:induction false} ServesDueInOrder<Obj>(a: seq<Entry<Obj>>, t: int, cb: Callback<Obj>, n: nat, grid: Grid,
                                                 calls: nat)
    requires grid.Valid() && SetOnce(a)
    ensures var (served, out) := ServeAll(a, t, cb, n, grid, calls);
            InDueOrder(a, served, cb, n, grid, t) && (out.Ended? ==> AllLater(out.state, t))
    decreases calls
  {
    hide SetAll, SetOnce, InDueOrder, SetBy, Earliest, IsEarliest, Place;
    NothingDue(a, t);
    if NoneDue(a, t) || calls == 0 {
      NoneInDueOrder(a, cb, n, grid, t);
    } else {
      var e, d := ServeOne(a, t, cb, n, grid, calls);
      var a1 := SetAll(d, cb(n, e.obj), grid, e.due);
      var rest: seq<Entry<Obj>> := [];
      NoneInDueOrder(d, cb, n + 1, grid, t);
      DropKeepsSetOnce(a, Earliest(a));
      if a1.Some? {
        SetAllEntries(d, cb(n, e.obj), grid, e.due);
        StaysNotBefore(a, cb(n, e.obj), grid);
        ServesNotBefore(a1.value, t, cb, n + 1, grid, calls - 1, e.due);
        ServesDueInOrder(a1.value, t, cb, n + 1, grid, calls - 1);
        rest := ServeAll(a1.value, t, cb, n + 1, grid, calls - 1).0;
      }
      DueOrderOneMore(a, e, cb, n, grid, t, if a1.Some? then a1.value else d, rest);
      assert [e] + [] == [e];
    }
  }

  lemma NoneInDueOrder<Obj>(a: seq<Entry<Obj>>, cb: Callback<Obj>, n: nat, grid: Grid, t: int)
    requires grid.Valid()
    ensures InDueOrder(a, [], cb, n, grid, t)
  {
  }

  lemma DueOrderOneMore<Obj>(a: seq<Entry<Obj>>, e: Entry<Obj>, cb: Callback<Obj>, n: nat, grid: Grid, t: int,
                             a1: seq<Entry<Obj>>, rest: seq<Entry<Obj>>)
    requires grid.Valid() && e in a && e.due <= t && InDueOrder(a1, rest, cb, n + 1, grid, t)
    requires NotBefore(rest, e.due)
    requires forall x :: x in a1 ==> x in a || SetBy(x, cb(n, e.obj), grid, e.due)
    ensures InDueOrder(a, [e] + rest, cb, n, grid, t)
  {
    var served := [e] + rest;
    forall i | 0 <= i < |served| ensures Accounted(a, served, cb, n, grid, i) {
      if i > 0 {
        var x := rest[i - 1];
        assert Accounted(a1, rest, cb, n + 1, grid, i - 1);
        if x in a1 {
          assert x in a || SetBy(x, cb(n + 0, served[0].obj), grid, served[0].due);
        } else {
          var j :| 0 <= j < i - 1 && SetBy(x, cb(n + 1 + j, rest[j].obj), grid, rest[j].due);
          assert SetBy(x, cb(n + (j + 1), served[j + 1].obj), grid, served[j + 1].due);
        }
      }
    }
  }

  // ---- timers that no callback sets ------------------------------------------------

  /** No callback sets o's timer but o's own. */
  ghost predicate LeftAlone<Obj(!new)>(cb: Callback<Obj>, o: Obj) {
    forall n, p, r :: p != o && r in cb(n, p) ==> r.obj != o
  }

  ghost predicate FirstServed<Obj>(served: seq<Entry<Obj>>, i: int, o: Obj) {
    0 <= i < |served| && served[i].obj == o && forall j :: 0 <= j < i ==> served[j].obj != o
  }

  /** The pending timer e is what its object is first served for, if it is due; it is served
      by the end if it is due then, and is still pending otherwise. */
  ghost predicate ServedAsSet<Obj>(e: Entry<Obj>, served: seq<Entry<Obj>>, out: Outcome<seq<Entry<Obj>>>, t: int) {
    && (forall i :: FirstServed(served, i, e.obj) ==> served[i] == e && e.due <= t)
    && (out.Ended? ==> if e.due <= t then e in served else e in out.state)
  }

  lemma LeftAlonePending<Obj(!new)>(a: seq<Entry<Obj>>, cb: Callback<Obj>, n: nat, grid: Grid, e: Entry<Obj>)
    requires grid.Valid() && SetOnce(a) && a != [] && e in a && LeftAlone(cb, e.obj) && a[Earliest(a)].obj != e.obj
    ensures var a1 := SetAll(Drop(a, Earliest(a)), cb(n, a[Earliest(a)].obj), grid, a[Earliest(a)].due);
            a1.Some? ==> SetOnce(a1.value) && e in a1.value
  {
    var k := Earliest(a);
    DropKeepsSetOnce(a, k);
    if SetAll(Drop(a, k), cb(n, a[k].obj), grid, a[k].due).Some? {
      SetAllEntries(Drop(a, k), cb(n, a[k].obj), grid, a[k].due);
    }
  }

  /** Whatever other timers callbacks set, clamped, late or cancelled: one that they leave
      alone is served for the instant it was set to, and neither lost nor early. */
  lemma {:induction false} LeftAloneIsServed<Obj(!new)>(a: seq<Entry<Obj>>, t: int, cb: Callback<Obj>, n: nat,
                                                        grid: Grid, calls: nat, e: Entry<Obj>)
    requires grid.Valid() && SetOnce(a) && e in a && LeftAlone(cb, e.obj)
    ensures var (served, out) := ServeAll(a, t, cb, n, grid, calls); ServedAsSet(e, served, out, t)
    decreases calls
  {
    hide SetAll, SetOnce, LeftAlone;
    NothingDue(a, t);
    if !NoneDue(a, t) && calls > 0 {
      var x, d := ServeOne(a, t, cb, n, grid, calls);
      if x.obj == e.obj {
        SameEntry(a, Earliest(a), e);
        assert ServeAll(a, t, cb, n, grid, calls).0[0] == e;
      } else {
        LeftAlonePending(a, cb, n, grid, e);
        var a1 := SetAll(d, cb(n, x.obj), grid, x.due);
        if a1.Some? {
          LeftAloneIsServed(a1.value, t, cb, n + 1, grid, calls - 1, e);
          var (rest, out) := ServeAll(a1.value, t, cb, n + 1, grid, calls - 1);
          ServedAsSetLater(x, rest, out, e, t);
        }
      }
    }
  }

  /** The same for a timer that the next callback sets: if it is the last one for its object
      there, and no other object's callback sets that one later. */
  lemma NewTimerIsServed<Obj(!new)>(a: seq<Entry<Obj>>, t: int, cb: Callback<Obj>, n: nat, grid: Grid, calls: nat,
                                    i: nat)
    requires grid.Valid() && SetOnce(a) && !NoneDue(a, t) && calls > 0
    requires var e, rs := a[Earliest(a)], cb(n, a[Earliest(a)].obj);
             && SetAll(Drop(a, Earliest(a)), rs, grid, e.due).Some? && i < |rs| && LeftAlone(cb, rs[i].obj)
             && forall j :: i < j < |rs| ==> rs[j].obj != rs[i].obj
    ensures var e, rs := a[Earliest(a)], cb(n, a[Earliest(a)].obj);
            var (served, out) := ServeAll(a, t, cb, n, grid, calls);
            && Place(grid, e.due, Deadline(rs[i])).Some?
            && ServedAsSet(Entry(rs[i].obj, Place(grid, e.due, Deadline(rs[i])).value), served[1..], out, t)
  {
    hide SetAll, SetOnce, LeftAlone, Place, Earliest, IsEarliest;
    var x, d := ServeOne(a, t, cb, n, grid, calls);
    var rs := cb(n, x.obj);
    DropKeepsSetOnce(a, Earliest(a));
    SetAllEntries(d, rs, grid, x.due);
    LastSetIsPending(d, rs, grid, x.due, i);
    var a1 := SetAll(d, rs, grid, x.due).value;
    LeftAloneIsServed(a1, t, cb, n + 1, grid, calls - 1,
                      Entry(rs[i].obj, Place(grid, x.due, Deadline(rs[i])).value));
    var (rest, out) := ServeAll(a1, t, cb, n + 1, grid, calls - 1);
    assert ([x] + rest)[1..] == rest;
  }

  lemma ServedAsSetLater<Obj>(x: Entry<Obj>, rest: seq<Entry<Obj>>, out: Outcome<seq<Entry<Obj>>>, e: Entry<Obj>,
                              t: int)
    requires x.obj != e.obj && ServedAsSet(e, rest, out, t)
    ensures ServedAsSet(e, [x] + rest, out, t)
  {
    var served := [x] + rest;
    forall i | FirstServed(served, i, e.obj) ensures served[i] == e && e.due <= t {
      FirstServedLater(x, rest, i, e.obj);
    }
    if e in rest {
      var j :| 0 <= j < |rest| && rest[j] == e;
      assert served[j + 1] == e;
    }
  }

  lemma FirstServedLater<Obj>(x: Entry<Obj>, rest: seq<Entry<Obj>>, i: int, o: Obj)
    requires x.obj != o && FirstServed([x] + rest, i, o)
    ensures 0 < i < |rest| + 1 && ([x] + rest)[i] == rest[i - 1] && FirstServed(rest, i - 1, o)
  {
    assert forall j :: 0 <= j < i - 1 ==> rest[j] == ([x] + rest)[j + 1];
  }

  /** x stands before y in the list. */
  ghost predicate Before<Obj>(a: seq<Entry<Obj>>, x: Entry<Obj>, y: Entry<Obj>) {
    exists p, q :: 0 <= p < q < |a| && a[p] == x && a[q] == y
  }

  /** x is served before y: due earlier, or due together and set earlier. */
  ghost predicate Precedes<Obj>(a: seq<Entry<Obj>>, x: Entry<Obj>, y: Entry<Obj>) {
    x.due < y.due || (x.due == y.due && Before(a, x, y))
  }

  lemma {:induction false} CancelKeepsBefore<Obj>(a: seq<Entry<Obj>>, o: Obj, x: Entry<Obj>, y: Entry<Obj>)
    requires Before(a, x, y) && x.obj != o && y.obj != o
    ensures Before(Cancel(a, o), x, y)
  {
    var p, q :| 0 <= p < q < |a| && a[p] == x && a[q] == y;
    var rest, c := Cancel(a[1..], o), Cancel(a, o);
    if p == 0 {
      assert a[1..][q - 1] == y;
      CancelKeeps(a[1..], o, y);
      var j :| 0 <= j < |rest| && rest[j] == y;
      assert c[0] == x && c[1 + j] == y;
    } else {
      assert a[1..][p - 1] == x && a[1..][q - 1] == y;
      CancelKeepsBefore(a[1..], o, x, y);
      var i, j :| 0 <= i < j < |rest| && rest[i] == x && rest[j] == y;
      var shift := if a[0].obj == o then 0 else 1;
      assert c[shift + i] == x && c[shift + j] == y;
    }
  }

  lemma SetKeepsBefore<Obj>(a: seq<Entry<Obj>>, o: Obj, due: int, x: Entry<Obj>, y: Entry<Obj>)
    requires Before(a, x, y) && x.obj != o && y.obj != o
    ensures Before(Set(a, o, due), x, y)
  {
    CancelKeepsBefore(a, o, x, y);
    var c, s := Cancel(a, o), Set(a, o, due);
    var p, q :| 0 <= p < q < |c| && c[p] == x && c[q] == y;
    assert s[p] == x && s[q] == y;
  }

  lemma {:induction false} SetAllKeepsBefore<Obj>(a: seq<Entry<Obj>>, rs: seq<Rearm<Obj>>, grid: Grid, e: int,
                                                  x: Entry<Obj>, y: Entry<Obj>)
    requires grid.Valid() && Before(a, x, y) && SetAll(a, rs, grid, e).Some?
    requires forall r :: r in rs ==> r.obj != x.obj && r.obj != y.obj
    ensures Before(SetAll(a, rs, grid, e).value, x, y)
    decreases |rs|
  {
    if rs != [] {
      var r, due := rs[0], Place(grid, e, Deadline(rs[0])).value;
      assert r in rs && rs == [r] + rs[1..];
      SetKeepsBefore(a, r.obj, due, x, y);
      SetAllKeepsBefore(Set(a, r.obj, due), rs[1..], grid, e, x, y);
    }
  }

  lemma DropKeepsBefore<Obj>(a: seq<Entry<Obj>>, k: nat, x: Entry<Obj>, y: Entry<Obj>)
    requires k < |a| && Before(a, x, y) && x.obj != a[k].obj && y.obj != a[k].obj
    ensures Before(Drop(a, k), x, y)
  {
    var p, q :| 0 <= p < q < |a| && a[p] == x && a[q] == y;
    var d := Drop(a, k);
    assert d[if p < k then p else p - 1] == x && d[if q < k then q else q - 1] == y;
  }

  lemma EarliestPrecedes<Obj>(a: seq<Entry<Obj>>, x: Entry<Obj>, y: Entry<Obj>)
    requires SetOnce(a) && a != [] && x in a && y in a && x.obj != y.obj && Precedes(a, x, y)
    ensures a[Earliest(a)].obj != y.obj
  {
    hide Earliest;
    var k := Earliest(a);
    if x.due == y.due {
      var p, q :| 0 <= p < q < |a| && a[p] == x && a[q] == y;
      assert k != q;
    } else {
      var i, j :| 0 <= i < |a| && a[i] == x && 0 <= j < |a| && a[j] == y;
      assert k != j;
    }
  }

  /** By the time y's object is served for the first time, x has been served. */
  ghost predicate ServedBefore<Obj>(served: seq<Entry<Obj>>, x: Entry<Obj>, y: Entry<Obj>) {
    forall j :: FirstServed(served, j, y.obj) ==> x in served[..j]
  }

  /** Among timers that callbacks leave alone the order is the one a stable priority queue
      promises, whatever happens to others in between. */
  lemma {:induction false} LeftAloneInOrder<Obj(!new)>(a: seq<Entry<Obj>>, t: int, cb: Callback<Obj>, n: nat,
                                                       grid: Grid, calls: nat, x: Entry<Obj>, y: Entry<Obj>)
    requires grid.Valid() && SetOnce(a) && x in a && y in a && x.obj != y.obj && Precedes(a, x, y)
    requires LeftAlone(cb, x.obj) && LeftAlone(cb, y.obj)
    ensures ServedBefore(ServeAll(a, t, cb, n, grid, calls).0, x, y)
    decreases calls
  {
    hide SetAll, SetOnce, LeftAlone, Precedes, Earliest, IsEarliest;
    if !NoneDue(a, t) && calls > 0 {
      var e, d := ServeOne(a, t, cb, n, grid, calls);
      EarliestPrecedes(a, x, y);
      var a1 := SetAll(d, cb(n, e.obj), grid, e.due);
      var rest: seq<Entry<Obj>> := [];
      if a1.Some? {
        rest := ServeAll(a1.value, t, cb, n + 1, grid, calls - 1).0;
      }
      assert [e] + [] == [e];
      if x.obj == e.obj {
        SameEntry(a, Earliest(a), x);
        FirstServedBefore(e, rest, y);
      } else {
        if a1.Some? {
          LeftAlonePending(a, cb, n, grid, x);
          LeftAlonePending(a, cb, n, grid, y);
          PrecedesLater(a, cb, n, grid, x, y);
          LeftAloneInOrder(a1.value, t, cb, n + 1, grid, calls - 1, x, y);
        }
        ServedBeforeLater(e, rest, x, y);
      }
    }
  }

  lemma PrecedesLater<Obj(!new)>(a: seq<Entry<Obj>>, cb: Callback<Obj>, n: nat, grid: Grid, x: Entry<Obj>,
                                 y: Entry<Obj>)
    requires grid.Valid() && a != [] && Precedes(a, x, y) && LeftAlone(cb, x.obj) && LeftAlone(cb, y.obj)
    requires a[Earliest(a)].obj != x.obj && a[Earliest(a)].obj != y.obj
    requires SetAll(Drop(a, Earliest(a)), cb(n, a[Earliest(a)].obj), grid, a[Earliest(a)].due).Some?
    ensures Precedes(SetAll(Drop(a, Earliest(a)), cb(n, a[Earliest(a)].obj), grid, a[Earliest(a)].due).value, x, y)
  {
    if x.due == y.due {
      DropKeepsBefore(a, Earliest(a), x, y);
      SetAllKeepsBefore(Drop(a, Earliest(a)), cb(n, a[Earliest(a)].obj), grid, a[Earliest(a)].due, x, y);
    }
  }

  lemma FirstServedBefore<Obj>(x: Entry<Obj>, rest: seq<Entry<Obj>>, y: Entry<Obj>)
    requires x.obj != y.obj
    ensures ServedBefore([x] + rest, x, y)
  {
    var served := [x] + rest;
    forall j | FirstServed(served, j, y.obj) ensures x in served[..j] {
      assert j > 0 && served[..j][0] == x;
    }
  }

  lemma ServedBeforeLater<Obj>(e: Entry<Obj>, rest: seq<Entry<Obj>>, x: Entry<Obj>, y: Entry<Obj>)
    requires e.obj != y.obj && ServedBefore(rest, x, y)
    ensures ServedBefore([e] + rest, x, y)
  {
    var served := [e] + rest;
    forall j | FirstServed(served, j, y.obj) ensures x in served[..j] {
      assert forall i :: 0 <= i < j - 1 ==> rest[i] == served[i + 1];
      assert FirstServed(rest, j - 1, y.obj) && served[..j] == [e] + rest[..j - 1];
    }
  }

  /** No callback sets o's timer. */
  ghost predicate NeverSet<Obj(!new)>(cb: Callback<Obj>, o: Obj) {
    forall n, p, r :: r in cb(n, p) ==> r.obj != o
  }

  lemma {:induction false} NotPendingNotServed<Obj(!new)>(a: seq<Entry<Obj>>, t: int, cb: Callback<Obj>, n: nat,
                                                          grid: Grid, calls: nat, o: Obj)
    requires grid.Valid() && SetOnce(a) && Unset(a, o) && NeverSet(cb, o)
    ensures Unset(ServeAll(a, t, cb, n, grid, calls).0, o)
    decreases calls
  {
    hide SetAll, SetOnce, Earliest, IsEarliest, Place;
    if !NoneDue(a, t) && calls > 0 {
      var e, d := ServeOne(a, t, cb, n, grid, calls);
      DropKeepsSetOnce(a, Earliest(a));
      var a1 := SetAll(d, cb(n, e.obj), grid, e.due);
      if a1.Some? {
        SetAllEntries(d, cb(n, e.obj), grid, e.due);
        NotPendingNotServed(a1.value, t, cb, n + 1, grid, calls - 1, o);
      }
    }
  }

  /** A pending timer whose object no callback sets is served once at most. */
  lemma {:induction false} NeverSetServedOnce<Obj(!new)>(a: seq<Entry<Obj>>, t: int, cb: Callback<Obj>, n: nat,
                                                         grid: Grid, calls: nat, o: Obj)
    requires grid.Valid() && SetOnce(a) && NeverSet(cb, o)
    ensures var served := ServeAll(a, t, cb, n, grid, calls).0;
            forall i, j :: 0 <= i < j < |served| && served[i].obj == o ==> served[j].obj != o
    decreases calls
  {
    hide SetAll, SetOnce, Earliest, IsEarliest, Place;
    if !NoneDue(a, t) && calls > 0 {
      var e, d := ServeOne(a, t, cb, n, grid, calls);
      DropKeepsSetOnce(a, Earliest(a));
      var a1 := SetAll(d, cb(n, e.obj), grid, e.due);
      if a1.Some? {
        SetAllEntries(d, cb(n, e.obj), grid, e.due);
        NeverSetServedOnce(a1.value, t, cb, n + 1, grid, calls - 1, o);
        if e.obj == o {
          NotPendingNotServed(a1.value, t, cb, n + 1, grid, calls - 1, o);
        }
      }
    }
  }
}
