/** When serving an agenda ends, and when each timer is served once and in order although
    callbacks set timers in between. */
module ServingEnds {
  import opened Agenda
  import opened Clock
  import opened Options
  import opened Serving
  import opened TimerWheel

  // ---- when serving ends -------------------------------------------------------------

  /** Timers set while what is due at e is served are entered later than `limit`. */
  ghost predicate EnteredAfter<Obj>(rs: seq<Rearm<Obj>>, grid: Grid, e: int, limit: int)
    requires grid.Valid()
  {
    forall r :: r in rs ==> var due := Place(grid, e, Deadline(r)); due.Some? ==> due.value > limit
  }

  /** No callback of the run enters a timer at the very instant being served. */
  ghost predicate Sparing<Obj>(a: seq<Entry<Obj>>, t: int, cb: Callback<Obj>, n: nat, grid: Grid, calls: nat)
    requires grid.Valid()
    decreases calls
  {
    calls == 0 || NoneDue(a, t) ||
    (var e := a[Earliest(a)];
     var a1 := SetAll(Drop(a, Earliest(a)), cb(n, e.obj), grid, e.due);
     && EnteredAfter(cb(n, e.obj), grid, e.due, e.due)
     && (a1.Some? ==> Sparing(a1.value, t, cb, n + 1, grid, calls - 1)))
  }

  /** How far the agenda's first instant is behind t, and how many entries are due at it. */
  ghost function Behind<Obj>(a: seq<Entry<Obj>>, t: int): nat {
    if NoneDue(a, t) then 0 else t - a[Earliest(a)].due + 1
  }

  ghost function Front<Obj>(a: seq<Entry<Obj>>): nat {
    if a == [] then 0 else |DueAt(a, a[Earliest(a)].due)|
  }

  lemma {:induction false} SetAllSpares<Obj>(a: seq<Entry<Obj>>, rs: seq<Rearm<Obj>>, grid: Grid, e: int)
    requires grid.Valid() && EnteredAfter(rs, grid, e, e) && SetAll(a, rs, grid, e).Some?
    ensures |DueAt(SetAll(a, rs, grid, e).value, e)| <= |DueAt(a, e)|
    decreases |rs|
  {
    if rs != [] {
      var r, due := rs[0], Place(grid, e, Deadline(rs[0])).value;
      assert r in rs && rs == [r] + rs[1..];
      DueAtCancel(a, r.obj, e);
      WithoutMembers(DueAt(a, e), r.obj);
      DueAtAppend(Cancel(a, r.obj), [Entry(r.obj, due)], e);
      SetAllSpares(Set(a, r.obj, due), rs[1..], grid, e);
    }
  }

  /** A sparing callback brings serving on: the first instant moves on, or fewer entries
      are left at it. */
  lemma ServingGetsOn<Obj>(a: seq<Entry<Obj>>, t: int, rs: seq<Rearm<Obj>>, grid: Grid)
    requires grid.Valid() && SetOnce(a) && !NoneDue(a, t)
    requires var e := a[Earliest(a)].due;
             EnteredAfter(rs, grid, e, e) && SetAll(Drop(a, Earliest(a)), rs, grid, e).Some?
    ensures var a1 := SetAll(Drop(a, Earliest(a)), rs, grid, a[Earliest(a)].due).value;
            SetOnce(a1) && (Behind(a1, t) < Behind(a, t) || (Behind(a1, t) == Behind(a, t) && Front(a1) < Front(a)))
  {
    hide Earliest;
    var k, e := Earliest(a), a[Earliest(a)].due;
    var a1 := SetAll(Drop(a, k), rs, grid, e).value;
    StaysNotBefore(a, rs, grid);
    if !NoneDue(a1, t) {
      assert a1[Earliest(a1)] in a1;
      SetAllSpares(Drop(a, k), rs, grid, e);
      DropOldest(a, k, e);
    }
  }

  /** If no callback enters a timer at the instant being served, serving ends. */
  lemma {:induction false} SparingEnds<Obj>(a: seq<Entry<Obj>>, t: int, cb: Callback<Obj>, n: nat, grid: Grid)
    returns (calls: nat)
    requires grid.Valid() && SetOnce(a) && forall c :: Sparing(a, t, cb, n, grid, c)
    ensures !ServeAll(a, t, cb, n, grid, calls).1.Going?
    decreases Behind(a, t), Front(a)
  {
    hide SetAll, SetOnce, EnteredAfter, DueAt;
    calls := 0;
    if !NoneDue(a, t) {
      var e, d := ServeOne(a, t, cb, n, grid, 1);
      var a1 := SetAll(d, cb(n, e.obj), grid, e.due);
      assert Sparing(a, t, cb, n, grid, 1);
      if a1.Some? {
        ServingGetsOn(a, t, cb(n, e.obj), grid);
        var a2, m := a1.value, n + 1;
        forall c: nat ensures Sparing(a2, t, cb, m, grid, c) {
          assert Sparing(a, t, cb, n, grid, c + 1);
        }
        calls := SparingEnds(a2, t, cb, m, grid);
      }
      calls := calls + 1;
    }
  }

  /** Which deadlines are entered at the very instant e being served: those that are a
      little late or less than a granule ahead -- and, on a wheel of one slot, all that are
      clamped. */
  lemma EnteredAtOnce(grid: Grid, e: int, d: int)
    requires grid.Valid()
    ensures Place(grid, e, d) == Some(e) <==>
            e - grid.granule + 1_000_000 <= d < e + grid.granule || (grid.span == 1 && grid.After(e, 2) <= d)
  {
    GridFloorBounds(e, grid.granule, d);
    GridFloorFrom(e, grid.granule, d);
    MultipleOf(grid.span - 1, grid.granule);
    OneMore(grid.span - 1, grid.granule);
    OneMore(grid.span, grid.granule);
    if e <= d < e + grid.granule {
      assert e + 0 * grid.granule == e;
      GridFloorUnique(e, grid.granule, 0, d);
    }
  }

  /** A callback that keeps setting its object's timer again for such a deadline is called
      for ever. */
  lemma {:induction false} HastyNeverEnds<Obj(!new)>(a: seq<Entry<Obj>>, t: int, cb: Callback<Obj>, n: nat, grid: Grid,
                                                     calls: nat, e: int)
    requires grid.Valid() && !NoneDue(a, t) && a[Earliest(a)].due == e
    requires forall m, o :: |cb(m, o)| == 1 && cb(m, o)[0].obj == o && Place(grid, e, Deadline(cb(m, o)[0])) == Some(e)
    ensures var (served, out) := ServeAll(a, t, cb, n, grid, calls); out.Going? && |served| == calls
    decreases calls
  {
    hide Earliest, Place;
    if calls > 0 {
      var x, d := ServeOne(a, t, cb, n, grid, calls);
      var a1 := Set(d, x.obj, e);
      assert SetAll(d, cb(n, x.obj), grid, e) == Some(a1) by {
        assert cb(n, x.obj)[1..] == [];
      }
      forall y | y in a1 ensures y.due >= e {
        if y in Cancel(d, x.obj) {
          CancelKeeps(d, x.obj, y);
          EarliestIsLeast(a, y);
        }
      }
      assert a1[|a1| - 1].due == e && a1[Earliest(a1)] in a1;
      HastyNeverEnds(a1, t, cb, n + 1, grid, calls - 1, e);
    }
  }

  // ---- patient callbacks ---------------------------------------------------------------

  /** Every deadline lies a granule or more after t. */
  ghost predicate Patient<Obj(!new)>(cb: Callback<Obj>, t: int, granule: int) {
    forall n, o, r :: r in cb(n, o) ==> Deadline(r) >= t + granule
  }

  /** Where a patient timer is entered while serving at e; in particular, exactly when it is
      due again before expire(t) returns: when its deadline is past the last slot by a
      granule or more and that slot, to which it is clamped, is due. */
  lemma PatientPlace(grid: Grid, e: int, t: int, d: int)
    requires grid.Valid() && e <= t && d >= t + grid.granule
    ensures var due := Place(grid, e, d);
            && (due.None? <==> grid.After(e, grid.span) <= d < grid.After(e, grid.span + 1))
            && (due.Some? && due.value <= t <==>
                  grid.After(e, grid.span + 1) <= d && grid.After(e, grid.span - 1) <= t)
            && (due == Some(e) ==> grid.span == 1)
  {
    GridFloorBounds(e, grid.granule, d);
    EnteredAtOnce(grid, e, d);
  }

  /** Patient callbacks are sparing, so expire ends whatever the agenda. */
  lemma {:induction false} PatientSpares<Obj(!new)>(a: seq<Entry<Obj>>, t: int, cb: Callback<Obj>, n: nat, grid: Grid,
                                                    calls: nat)
    requires grid.Valid() && grid.span >= 2 && Patient(cb, t, grid.granule)
    ensures Sparing(a, t, cb, n, grid, calls)
    decreases calls
  {
    hide SetAll;
    if calls > 0 && !NoneDue(a, t) {
      var e, d := ServeOne(a, t, cb, n, grid, calls);
      forall r | r in cb(n, e.obj) ensures Place(grid, e.due, Deadline(r)) != Some(e.due) {
        PatientPlace(grid, e.due, t, Deadline(r));
      }
      var a1 := SetAll(d, cb(n, e.obj), grid, e.due);
      if a1.Some? {
        PatientSpares(a1.value, t, cb, n + 1, grid, calls - 1);
      }
    }
  }

  lemma PatientEnds<Obj(!new)>(a: seq<Entry<Obj>>, t: int, cb: Callback<Obj>, n: nat, grid: Grid) returns (calls: nat)
    requires grid.Valid() && grid.span >= 2 && SetOnce(a) && Patient(cb, t, grid.granule)
    ensures !ServeAll(a, t, cb, n, grid, calls).1.Going?
  {
    forall c: nat ensures Sparing(a, t, cb, n, grid, c) {
      PatientSpares(a, t, cb, n, grid, c);
    }
    calls := SparingEnds(a, t, cb, n, grid);
  }

  // ---- when nothing that is set falls due ----------------------------------------------

  /** No callback of the run enters a timer at or before t. */
  ghost predicate Deferring<Obj>(a: seq<Entry<Obj>>, t: int, cb: Callback<Obj>, n: nat, grid: Grid, calls: nat)
    requires grid.Valid()
    decreases calls
  {
    calls == 0 || NoneDue(a, t) ||
    (var e := a[Earliest(a)];
     var a1 := SetAll(Drop(a, Earliest(a)), cb(n, e.obj), grid, e.due);
     && EnteredAfter(cb(n, e.obj), grid, e.due, t)
     && (a1.Some? ==> Deferring(a1.value, t, cb, n + 1, grid, calls - 1)))
  }

  lemma {:induction false} BeforeCancel<Obj>(a: seq<Entry<Obj>>, o: Obj, x: Entry<Obj>, y: Entry<Obj>)
    requires Before(Cancel(a, o), x, y)
    ensures Before(a, x, y)
  {
    var c := Cancel(a, o);
    var p, q :| 0 <= p < q < |c| && c[p] == x && c[q] == y;
    var rest := Cancel(a[1..], o);
    if p == 0 && a[0].obj != o {
      assert y == rest[q - 1] && y in rest;
      CancelKeeps(a[1..], o, y);
      var j :| 0 <= j < |a| - 1 && a[1..][j] == y;
      assert a[0] == x && a[1 + j] == y;
    } else {
      var shift := if a[0].obj == o then 0 else 1;
      assert rest[p - shift] == x && rest[q - shift] == y;
      BeforeCancel(a[1..], o, x, y);
      var i, j :| 0 <= i < j < |a| - 1 && a[1..][i] == x && a[1..][j] == y;
      assert a[1 + i] == x && a[1 + j] == y;
    }
  }

  lemma BeforeDrop<Obj>(a: seq<Entry<Obj>>, k: nat, x: Entry<Obj>, y: Entry<Obj>)
    requires k < |a| && Before(Drop(a, k), x, y)
    ensures Before(a, x, y)
  {
    var d := Drop(a, k);
    var p, q :| 0 <= p < q < |d| && d[p] == x && d[q] == y;
    assert a[if p < k then p else p + 1] == x && a[if q < k then q else q + 1] == y;
  }

  lemma BeforeSet<Obj>(a: seq<Entry<Obj>>, o: Obj, due: int, x: Entry<Obj>, y: Entry<Obj>)
    requires Before(Set(a, o, due), x, y) && y.due < due
    ensures Before(a, x, y)
  {
    var a1, c := Set(a, o, due), Cancel(a, o);
    var p, q :| 0 <= p < q < |a1| && a1[p] == x && a1[q] == y;
    assert q < |c| && c[p] == x && c[q] == y;
    BeforeCancel(a, o, x, y);
  }

  /** What is due at t in b was due in a already, and in the same order. */
  ghost predicate SameDue<Obj(!new)>(a: seq<Entry<Obj>>, b: seq<Entry<Obj>>, t: int) {
    && SetOnce(b)
    && (forall e :: e in b && e.due <= t ==> e in a)
    && (forall x, y :: Before(b, x, y) && x.due <= t && y.due <= t ==> Before(a, x, y))
  }

  lemma {:induction false} SetAllKeepsDue<Obj(!new)>(a: seq<Entry<Obj>>, rs: seq<Rearm<Obj>>, grid: Grid, e: int,
                                                     t: int)
    requires grid.Valid() && SetOnce(a) && EnteredAfter(rs, grid, e, t) && SetAll(a, rs, grid, e).Some?
    ensures SameDue(a, SetAll(a, rs, grid, e).value, t)
    decreases |rs|
  {
    if rs != [] {
      var r, due := rs[0], Place(grid, e, Deadline(rs[0])).value;
      assert r in rs && rs == [r] + rs[1..];
      var a1, a2 := Set(a, r.obj, due), SetAll(a, rs, grid, e).value;
      SetKeepsSetOnce(a, r.obj, due);
      SetAllKeepsDue(a1, rs[1..], grid, e, t);
      forall x, y | Before(a2, x, y) && x.due <= t && y.due <= t ensures Before(a, x, y) {
        BeforeSet(a, r.obj, due, x, y);
      }
    }
  }

  /** All that was served was pending when expire began, and due, and each came once, in
      order of instant and, among equals, in the order set. */
  ghost predicate ServedInOrder<Obj>(a: seq<Entry<Obj>>, served: seq<Entry<Obj>>, t: int) {
    && (forall e :: e in served ==> e in a && e.due <= t)
    && (forall i, j :: 0 <= i < j < |served| ==>
          served[i].obj != served[j].obj && Precedes(a, served[i], served[j]))
  }

  /** Main result on expire when what its callbacks set is not due yet. */
  lemma {:induction false} ServesOnceInOrder<Obj(!new)>(a: seq<Entry<Obj>>, t: int, cb: Callback<Obj>, n: nat,
                                                        grid: Grid, calls: nat)
    requires grid.Valid() && SetOnce(a) && Deferring(a, t, cb, n, grid, calls)
    ensures ServedInOrder(a, ServeAll(a, t, cb, n, grid, calls).0, t)
    decreases calls
  {
    hide SetAll, SetOnce, SameDue, EnteredAfter, Earliest, IsEarliest, ServedInOrder;
    NothingServed(a, t);
    if !NoneDue(a, t) && calls > 0 {
      var e, d := ServeOne(a, t, cb, n, grid, calls);
      DropKeepsSetOnce(a, Earliest(a));
      SameDueItself(d, t);
      NothingServed(d, t);
      var a1, rest := d, [];
      var after := SetAll(d, cb(n, e.obj), grid, e.due);
      if after.Some? {
        a1 := after.value;
        SetAllKeepsDue(d, cb(n, e.obj), grid, e.due, t);
        ServesOnceInOrder(a1, t, cb, n + 1, grid, calls - 1);
        rest := ServeAll(a1, t, cb, n + 1, grid, calls - 1).0;
      }
      OneMoreInOrder(a, Earliest(a), a1, rest, t);
      assert [e] + [] == [e];
    }
  }

  lemma NothingServed<Obj>(a: seq<Entry<Obj>>, t: int)
    ensures ServedInOrder(a, [], t)
  {
  }

  lemma SameDueItself<Obj(!new)>(a: seq<Entry<Obj>>, t: int)
    requires SetOnce(a)
    ensures SameDue(a, a, t)
  {
  }

  lemma OneMoreInOrder<Obj(!new)>(a: seq<Entry<Obj>>, k: nat, a1: seq<Entry<Obj>>, rest: seq<Entry<Obj>>, t: int)
    requires SetOnce(a) && IsEarliest(a, k) && a[k].due <= t && SameDue(Drop(a, k), a1, t) && ServedInOrder(a1, rest, t)
    ensures ServedInOrder(a, [a[k]] + rest, t)
  {
    hide Precedes, Before, SameDue, SetOnce;
    var served := [a[k]] + rest;
    forall i | 0 <= i < |rest| ensures rest[i] in a {
      FirstInOrder(a, k, a1, rest, t, i);
    }
    forall i, j | 0 <= i < j < |served|
      ensures served[i].obj != served[j].obj && Precedes(a, served[i], served[j])
    {
      if i == 0 {
        FirstInOrder(a, k, a1, rest, t, j - 1);
      } else {
        LaterInOrder(a, k, a1, rest, t, i - 1, j - 1);
      }
    }
  }

  lemma FirstInOrder<Obj(!new)>(a: seq<Entry<Obj>>, k: nat, a1: seq<Entry<Obj>>, rest: seq<Entry<Obj>>, t: int, j: nat)
    requires SetOnce(a) && IsEarliest(a, k) && SameDue(Drop(a, k), a1, t) && ServedInOrder(a1, rest, t) && j < |rest|
    ensures rest[j] in a && a[k].obj != rest[j].obj && Precedes(a, a[k], rest[j])
  {
    hide Precedes, Before;
    assert rest[j] in rest;
    DropKeepsSetOnce(a, k);
    FirstPrecedes(a, k, rest[j]);
  }

  lemma LaterInOrder<Obj(!new)>(a: seq<Entry<Obj>>, k: nat, a1: seq<Entry<Obj>>, rest: seq<Entry<Obj>>, t: int,
                                i: nat, j: nat)
    requires k < |a| && SameDue(Drop(a, k), a1, t) && ServedInOrder(a1, rest, t) && i < j < |rest|
    ensures rest[i].obj != rest[j].obj && Precedes(a, rest[i], rest[j])
  {
    hide Precedes, Before;
    assert rest[i] in rest && rest[j] in rest;
    LaterPrecedes(a, k, a1, rest[i], rest[j], t);
  }

  lemma LaterPrecedes<Obj(!new)>(a: seq<Entry<Obj>>, k: nat, a1: seq<Entry<Obj>>, x: Entry<Obj>, y: Entry<Obj>, t: int)
    requires k < |a| && SameDue(Drop(a, k), a1, t) && Precedes(a1, x, y) && x.due <= t && y.due <= t
    ensures Precedes(a, x, y)
  {
    if x.due == y.due {
      BeforeDrop(a, k, x, y);
    }
  }

  lemma FirstPrecedes<Obj>(a: seq<Entry<Obj>>, k: nat, e: Entry<Obj>)
    requires IsEarliest(a, k) && e in Drop(a, k)
    ensures Precedes(a, a[k], e)
  {
    var d := Drop(a, k);
    var q :| 0 <= q < |d| && d[q] == e;
    assert a[if q < k then q else q + 1] == e;
  }

  /** Patient callbacks set nothing that falls due in the same expire unless the wheel has
      fallen behind by all its slots but one. */
  lemma {:induction false} PatientDefers<Obj(!new)>(a: seq<Entry<Obj>>, t: int, cb: Callback<Obj>, n: nat, grid: Grid,
                                                    calls: nat)
    requires grid.Valid() && SetOnce(a) && Patient(cb, t, grid.granule)
    requires forall e :: e in a ==> grid.After(e.due, grid.span - 1) > t
    ensures Deferring(a, t, cb, n, grid, calls)
    decreases calls
  {
    hide SetAll, SetOnce, Place, Earliest, IsEarliest;
    if calls > 0 && !NoneDue(a, t) {
      var e, d := ServeOne(a, t, cb, n, grid, calls);
      forall r, due | r in cb(n, e.obj) && Place(grid, e.due, Deadline(r)) == Some(due) ensures due > t {
        PatientPlace(grid, e.due, t, Deadline(r));
      }
      DropKeepsSetOnce(a, Earliest(a));
      var a1 := SetAll(d, cb(n, e.obj), grid, e.due);
      if a1.Some? {
        SetAllEntries(d, cb(n, e.obj), grid, e.due);
        MultipleOf(grid.span - 1, grid.granule);
        PatientDefers(a1.value, t, cb, n + 1, grid, calls - 1);
      }
    }
  }
}
