/** What becomes of the server's 60 ms timer (server.cpp) when it is set from the timer
    callback of a wheel that has fallen behind, as it does while no event is reported. */
module LateWheel {
  import opened Agenda
  import opened Clock
  import opened Options
  import opened Serving
  import opened ServingEnds
  import opened TimerExpire
  import opened TimerWheel

  /** The first service called back sets its own timer for 60 ms; later ones set none. */
  function Once<Obj>(now: Timespec): Callback<Obj> {
    (n, o) => if n == 0 then [Rearm(now, 60, o)] else []
  }

  lemma ServerGrid<Obj>(t: Timespec)
    ensures GridOf(Make<Obj>(2, 10, t)) == Grid(10_000_000, 201)
  {
    assert 2 * 1000 % 0x1_0000_0000 / 10 + 1 == 201;
  }

  /** The server's timer 0 with the 1 ms timer of a service just accepted. */
  lemma Accepted<Obj>(t: Timespec, o: Obj) returns (w: Wheel<Obj>)
    requires t.Normal()
    ensures Make<Obj>(2, 10, t).Insert(t, 1, o) == Some(w)
    ensures Represents(w, [Entry(o, t.Value())]) && GridOf(w) == Grid(10_000_000, 201)
  {
    hide Make, Place, Wheel<Obj>.Index, Represents;
    MakeIsEmpty<Obj>(2, 10, t);
    ServerGrid<Obj>(t);
    EpochOf<Obj>(t);
    var w0 := Make<Obj>(2, 10, t);
    RepresentsValid(w0, []);
    InsertPlaces(w0, Rearm(t, 1, o));
    EnteredAtOnce(GridOf(w0), t.Value(), Deadline(Rearm(t, 1, o)));
    InsertSetsTimer(w0, [], t, 1, o);
    w := w0.Insert(t, 1, o).value;
    assert Set<Obj>([], o, t.Value()) == [Entry(o, t.Value())];
    assert Represents(w, [Entry(o, t.Value())]);
    assert GridOf(w) == GridOf(w0);
  }

  lemma EpochOf<Obj>(t: Timespec)
    ensures Make<Obj>(2, 10, t).epoch == t
  {
  }

  lemma OnceIsPatient<Obj(!new)>(now: Timespec)
    requires now.Normal()
    ensures Timely(Once<Obj>(now)) && Patient(Once<Obj>(now), now.Value(), 10_000_000)
  {
  }

  /** Where the 60 ms timer is entered. */
  lemma SixtyPlaced<Obj>(grid: Grid, e: int, now: Timespec, o: Obj)
    requires grid == Grid(10_000_000, 201) && e <= now.Value()
    ensures var due := Place(grid, e, Deadline(Rearm(now, 60, o)));
            && (now.Value() >= e + 2_000_000_000 ==> due == Some(e + 2_000_000_000))
            && (e + 1_950_000_000 <= now.Value() < e + 1_960_000_000 ==> due == None)
  {
  }

  lemma OneEntry<Obj>(o: Obj, due: int)
    ensures var e: Entry<Obj> := Entry(o, due);
            && Earliest([e]) == 0 && Drop([e], 0) == [] && Set<Obj>([], o, due) == [e]
            && forall t :: NoneDue([e], t) <==> due > t
  {
    assert Cancel<Obj>([], o) == [];
  }

  lemma Placed<Obj>(a: seq<Entry<Obj>>, r: Rearm<Obj>, grid: Grid, e: int)
    requires grid.Valid()
    ensures var due := Place(grid, e, Deadline(r));
            SetAll(a, [r], grid, e) == if due.None? then None else Some(Set(a, r.obj, due.value))
  {
    hide Place;
    assert [r][1..] == [];
  }

  lemma NoneSet<Obj>(a: seq<Entry<Obj>>, grid: Grid, e: int)
    requires grid.Valid()
    ensures SetAll(a, [], grid, e) == Some(a)
  {
  }

  /** Once the wheel is two seconds behind, the timer is clamped to an instant that is past
      already: the service is called back a second time in the same expire, 60 ms before
      its deadline. */
  lemma ServedAgainTooEarly<Obj(!new)>(t: Timespec, now: Timespec, o: Obj, calls: nat)
    requires t.Normal() && now.Normal() && now.Value() >= t.Value() + 2_000_000_000 && calls >= 2
    ensures var w := Make<Obj>(2, 10, t).Insert(t, 1, o);
            && w.Some? && w.value.Valid()
            && var (fired, out) := Expire(w.value, now, Once(now), 0, calls); fired == [o, o] && out.Ended?
  {
    hide Represents, Place, Earliest, Expire, ServeAll, Wheel<Obj>.Insert, Make;
    var w := Accepted(t, o);
    var first, again := Entry(o, t.Value()), Entry(o, t.Value() + 2_000_000_000);
    assert w.Valid() by { RepresentsValid(w, [first]); }
    OnceIsPatient<Obj>(now);
    ServedTwice(GridOf(w), t.Value(), now, o, 0, calls);
    ExpireServesAgenda(w, [first], now, Once(now), 0, calls);
    ObjsFirst(first, [again]);
    ObjsFirst(again, []);
    assert [first] + [again] == [first, again] && [o] + [o] == [o, o];
  }

  lemma ServedTwice<Obj>(grid: Grid, e: int, now: Timespec, o: Obj, n: nat, calls: nat)
    requires grid == Grid(10_000_000, 201) && now.Normal() && now.Value() >= e + 2_000_000_000
    requires n == 0 && calls >= 2
    ensures ServeAll([Entry(o, e)], now.Value(), Once(now), n, grid, calls)
            == ([Entry(o, e), Entry(o, e + 2_000_000_000)], Ended([]))
  {
    hide Place, Earliest, SetAll, Set, ServeAll;
    var t, cb, again := now.Value(), Once<Obj>(now), e + 2_000_000_000;
    OneEntry(o, e);
    OneEntry(o, again);
    SixtyPlaced(grid, e, now, o);
    Placed<Obj>([], Rearm(now, 60, o), grid, e);
    NoneSet<Obj>([], grid, again);
    var x, y := Entry(o, e), Entry(o, again);
    NothingPending(t, cb, n + 2, grid, calls - 2);
    ServesOneMore([y], t, cb, n + 1, grid, calls - 1, [], [], Ended([]));
    assert [y] + [] == [y];
    ServesOneMore([x], t, cb, n, grid, calls, [y], [y], Ended([]));
    assert [x] + [y] == [x, y];
  }

  lemma NothingPending<Obj>(t: int, cb: Callback<Obj>, n: nat, grid: Grid, calls: nat)
    requires grid.Valid()
    ensures ServeAll([], t, cb, n, grid, calls) == ([], Ended([]))
  {
  }

  lemma ServesOneMore<Obj>(a: seq<Entry<Obj>>, t: int, cb: Callback<Obj>, n: nat, grid: Grid, calls: nat,
                           a1: seq<Entry<Obj>>, rest: seq<Entry<Obj>>, out: Outcome<seq<Entry<Obj>>>)
    requires grid.Valid() && !NoneDue(a, t) && calls > 0
    requires SetAll(Drop(a, Earliest(a)), cb(n, a[Earliest(a)].obj), grid, a[Earliest(a)].due) == Some(a1)
    requires ServeAll(a1, t, cb, n + 1, grid, calls - 1) == (rest, out)
    ensures ServeAll(a, t, cb, n, grid, calls) == ([a[Earliest(a)]] + rest, out)
  {
  }

  /** Between 1.95 and 1.96 seconds behind, it falls in the gap past the last slot: the
      process aborts. */
  lemma AbortsInTheGap<Obj(!new)>(t: Timespec, now: Timespec, o: Obj, calls: nat)
    requires t.Normal() && now.Normal() && t.Value() + 1_950_000_000 <= now.Value() < t.Value() + 1_960_000_000
    requires calls >= 1
    ensures var w := Make<Obj>(2, 10, t).Insert(t, 1, o);
            w.Some? && w.value.Valid() && Expire(w.value, now, Once(now), 0, calls) == ([o], Aborted)
  {
    hide Represents, Place, Earliest, Expire, ServeAll, SetAll, Wheel<Obj>.Insert, Make;
    var w := Accepted(t, o);
    var e := Entry(o, t.Value());
    assert w.Valid() by { RepresentsValid(w, [e]); }
    OnceIsPatient<Obj>(now);
    ServedToAbort(GridOf(w), t.Value(), now, o, 0, calls);
    ExpireServesAgenda(w, [e], now, Once(now), 0, calls);
    ObjsFirst(e, []);
  }

  lemma ServedToAbort<Obj>(grid: Grid, e: int, now: Timespec, o: Obj, n: nat, calls: nat)
    requires grid == Grid(10_000_000, 201) && n == 0 && calls >= 1
    requires e + 1_950_000_000 <= now.Value() < e + 1_960_000_000
    ensures ServeAll([Entry(o, e)], now.Value(), Once(now), n, grid, calls) == ([Entry(o, e)], Aborted)
  {
    hide Place, Earliest, SetAll, Set, ServeAll;
    OneEntry(o, e);
    SixtyPlaced(grid, e, now, o);
    Placed<Obj>([], Rearm(now, 60, o), grid, e);
    var _, _ := ServeOne([Entry(o, e)], now.Value(), Once<Obj>(now), n, grid, calls);
  }
}
