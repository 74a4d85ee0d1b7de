/** circarray.hpp: a fixed array read from a moving head. */
module CircArrays {
  import opened Clock
  import opened Options

  class CircArray<T(0)> {
    const sz: nat
    const cells: array<T>
    var headx: nat

    ghost predicate Valid()
      reads this
    {
      sz > 0 && cells.Length == sz && headx < sz
    }

    /** The elements in logical order, from the head round to just before it. */
    ghost function View(): (v: seq<T>)
      requires Valid()
      reads this, cells
      ensures |v| == sz
      ensures forall x :: 0 <= x < sz ==> v[x] == cells[if headx + x < sz then headx + x else headx + x - sz]
    {
      cells[headx..] + cells[..headx]
    }

    /** cell is the array position behind logical index x. */
    ghost predicate IsCell(cell: nat, x: nat)
      requires Valid()
      reads this, cells
    {
      x < sz && cell < sz && cell == (if headx + x < sz then headx + x else headx + x - sz) && View()[x] == cells[cell]
    }

    constructor (size: nat, zero: T)
      requires size > 0
      ensures Valid() && fresh(cells) && sz == size
      ensures View() == seq(size, _ => zero)
    {
      sz := size;
      headx := 0;
      cells := new T[size](_ => zero);
      new;
      assert cells[0..] == seq(size, _ => zero);
    }

    /** Moving the head by n rotates the view. */
    method Advance(n: nat)
      requires Valid()
      modifies this`headx
      ensures Valid()
      ensures View() == old(View())[n % sz..] + old(View())[..n % sz]
    {
      ghost var was, h, r := View(), headx, n % sz;
      headx := (headx + n) % sz;
      WrapHead(h, n, sz);
      assert 0 <= r < sz && headx == if h + r < sz then h + r else h + r - sz;
      RotatedView(cells[..], h, r, headx);
    }

    static lemma RotatedView(s: seq<T>, h: nat, r: nat, head: nat)
      requires h < |s| && r < |s| && head == if h + r < |s| then h + r else h + r - |s|
      ensures var v := s[h..] + s[..h]; s[head..] + s[..head] == v[r..] + v[..r]
    {
      var v := s[h..] + s[..h];
      if h + r < |s| {
        assert v[r..] == s[head..] + s[..h] && v[..r] == s[h..head];
        assert s[..h] + s[h..head] == s[..head];
      } else {
        assert v[r..] == s[head..h] && v[..r] == s[h..] + s[..head];
        assert s[head..h] + s[h..] == s[head..];
      }
    }

    static lemma WrapHead(h: nat, n: nat, sz: nat)
      requires h < sz
      ensures (h + n) % sz == if h + n % sz < sz then h + n % sz else h + n % sz - sz
    {
      var q, r := n / sz, n % sz;
      assert n == q * sz + r;
      if h + r < sz {
        Remainder(h + n, q, h + r, sz);
      } else {
        OneMore(q, sz);
        Remainder(h + n, q + 1, h + r - sz, sz);
      }
    }

    static lemma Remainder(a: nat, q: nat, r: nat, sz: nat)
      requires 0 < sz && r < sz && a == q * sz + r
      ensures a % sz == r
    {
      var q' := a / sz;
      assert a == q' * sz + a % sz;
      OneMore(q, sz);
      OneMore(q', sz);
      if q > q' {
        ProductOrder(q' + 1, q, sz);
      } else if q < q' {
        ProductOrder(q + 1, q', sz);
      }
    }

    /** operator[]: the array cell behind logical index x, or None where it aborts. */
    method At(x: int) returns (cell: Option<nat>)
      requires Valid()
      ensures cell.Some? <==> 0 <= x < sz
      ensures cell.Some? ==> IsCell(cell.value, x)
    {
      if 0 <= x < sz {
        Remainder(x, 0, x, sz);
        WrapHead(headx, x, sz);
      }
      cell := if 0 <= x < sz then Some((headx + x) % sz) else None;
    }

    /** Assignment through the reference operator[] returned. */
    method Assign(cell: nat, ghost x: nat, v: T)
      requires Valid() && IsCell(cell, x)
      modifies cells
      ensures Valid() && View() == old(View())[x := v]
    {
      cells[cell] := v;
    }
  }
}

/** evtimer.hpp: the wheel of TimerWheel kept in place, in a circular array. */
module EvTimers {
  import opened Agenda
  import opened CircArrays
  import opened Clock
  import opened Serving
  import opened TimerExpire
  import opened TimerWheel

  class EvTimer<Obj(==,!new)> {
    var epoch: Timespec
    const incr: Timespec
    const incrMs: int
    const carray: CircArray<seq<Obj>>

    ghost predicate Valid()
      reads this, carray
    {
      carray.Valid() && epoch.WeaklyNormal() && incr.nsec >= 0 && incrMs >= 1 && incr.Value() == incrMs * 1_000_000
    }

    ghost function Model(): (w: Wheel<Obj>)
      requires Valid()
      reads this, carray, carray.cells
      ensures w.Valid()
    {
      Wheel(epoch, incr, incrMs, carray.View())
    }

    constructor (secsMax: nat, granularityMs: int, now: Timespec)
      requires granularityMs > 0 && now.Normal()
      ensures Valid() && fresh(carray) && fresh(carray.cells)
      ensures Model() == Make(secsMax, granularityMs, now)
    {
      hide Make, TruncDiv;
      NewParts(secsMax, granularityMs, now);
      incr := Timespec(granularityMs / 1000, granularityMs * 1_000_000);
      incrMs := granularityMs / 1000 * 1000 + TruncDiv(granularityMs * 1_000_000, 1_000_000);
      var slots := new CircArray<seq<Obj>>(secsMax * 1000 % 0x1_0000_0000 / granularityMs + 1, []);
      carray := slots;
      epoch := now;
      new;
      assert carray.View() == Make<Obj>(secsMax, granularityMs, now).slots;
    }

    static lemma NewParts(secsMax: nat, granularityMs: int, now: Timespec)
      requires granularityMs > 0 && now.Normal()
      ensures var w, n := Make<Obj>(secsMax, granularityMs, now), secsMax * 1000 % 0x1_0000_0000 / granularityMs + 1;
              && w.Valid() && w.epoch == now && n > 0 && w.slots == seq(n, _ => [])
              && w.incr == Timespec(granularityMs / 1000, granularityMs * 1_000_000)
              && w.incrMs == granularityMs / 1000 * 1000 + TruncDiv(granularityMs * 1_000_000, 1_000_000)
    {
      hide TruncDiv;
      MakeIsEmpty<Obj>(secsMax, granularityMs, now);
      SlotCountPositive(secsMax, granularityMs);
    }

    /** The intrusive hook takes the object out of whatever list it is linked into. */
    method Unlink(o: Obj)
      requires Valid()
      modifies carray.cells
      ensures Valid() && Model() == old(Model()).Unlink(o)
    {
      forall i | 0 <= i < carray.cells.Length {
        carray.cells[i] := Without(carray.cells[i], o);
      }
      assert carray.View() == old(Model()).Unlink(o).slots;
    }

    /** Sets o's timer `ms` from now; `aborted` is the abort in operator[]. */
    method Insert(now: Timespec, ms: int, o: Obj) returns (aborted: bool)
      requires Valid()
      modifies carray.cells
      ensures Valid()
      ensures aborted <==> old(Model()).Insert(now, ms, o).None?
      ensures !aborted ==> Model() == old(Model()).Insert(now, ms, o).value
    {
      var since := Minus(now, epoch);
      var incrTimeMs := Millisecs(since) + ms;
      var x := TruncDiv(incrTimeMs, incrMs);
      if x > carray.sz {
        x := carray.sz - 1;
      }
      Unlink(o);
      var cell := carray.At(x);
      aborted := cell.None?;
      if !aborted {
        carray.Assign(cell.value, x, carray.cells[cell.value] + [o]);
      }
    }

    /** Runs every timer that is due through the callback, wherever expire ends at all. */
    method Expire(now: Timespec, cb: Callback<Obj>) returns (fired: seq<Obj>, aborted: bool)
      requires Valid() && now.Normal() && Ends(Model(), now, cb, 0)
      modifies this`epoch, carray`headx, carray.cells
      ensures Valid()
      ensures ExpiresTo(old(Model()), now, cb, fired, if aborted then Aborted else Ended(Model()))
    {
      fired, aborted := [], false;
      ghost var calls :| !TimerExpire.Expire(Model(), now, cb, 0, calls).1.Going?;
      ghost var left, goal := calls, TimerExpire.Expire(Model(), now, cb, 0, calls);
      assert [] + goal.0 == goal.0;
      while AtMost(epoch, now)
        invariant Valid() && goal == Rest(Model(), now, cb, fired, left)
        decreases left, Model().Lag(now)
      {
        AtMostIsOrder(epoch, now);
        fired, aborted, left := DrainFirst(now, cb, fired, left);
        if aborted {
          return;
        }
        ExpireTick(Model(), now, cb, fired, left);
        Tick();
      }
      ExpireStops(Model(), now, cb, fired, left);
    }

    /** The step of expire's outer loop. */
    method Tick()
      requires Valid()
      modifies this`epoch, carray`headx
      ensures Valid() && Model() == old(Model()).Tick()
      ensures epoch.Value() == old(epoch.Value()) + incrMs * 1_000_000
    {
      PlusIsExact(epoch, incr);
      if carray.sz > 1 {
        CircArray<seq<Obj>>.Remainder(1, 0, 1, carray.sz);
      }
      carray.Advance(1);
      epoch := Plus(epoch, incr);
    }

    /** The inner loop of expire: calls back for every object in the first slot. */
    method DrainFirst(now: Timespec, cb: Callback<Obj>, before: seq<Obj>, ghost calls: nat)
      returns (fired: seq<Obj>, aborted: bool, ghost left: nat)
      requires Valid() && now.Normal() && AtMost(epoch, now) && !Rest(Model(), now, cb, before, calls).1.Going?
      modifies carray.cells
      ensures Valid() && (!aborted ==> Model().slots[0] == []) && left <= calls
      ensures old(Rest(Model(), now, cb, before, calls))
              == if aborted then (fired, Aborted) else Rest(Model(), now, cb, fired, left)
    {
      fired, aborted, left := before, false, calls;
      ghost var goal := Rest(Model(), now, cb, before, calls);
      var list := carray.At(0);
      while carray.cells[list.value] != []
        invariant Valid() && list.Some? && carray.IsCell(list.value, 0)
        invariant goal == Rest(Model(), now, cb, fired, left) && left <= calls
        decreases left
      {
        ghost var w := Model();
        var o: Obj;
        o, aborted := FireFront(list.value, cb, |fired|);
        ExpireFires(w, now, cb, fired, left);
        fired := fired + [o];
        if aborted {
          return;
        }
        left := left - 1;
      }
    }

    /** What a run of expire that has fired `fired` so far comes to. */
    static ghost function Rest(w: Wheel<Obj>, now: Timespec, cb: Callback<Obj>, fired: seq<Obj>, calls: nat)
      : (seq<Obj>, Outcome<Wheel<Obj>>)
      requires w.Valid() && now.Normal()
    {
      Prepend(fired, TimerExpire.Expire(w, now, cb, |fired|, calls))
    }

    static lemma ExpireFires(w: Wheel<Obj>, now: Timespec, cb: Callback<Obj>, fired: seq<Obj>, calls: nat)
      requires w.Valid() && now.Normal() && AtMost(w.epoch, now) && w.slots[0] != []
      requires !Rest(w, now, cb, fired, calls).1.Going?
      ensures calls > 0
      ensures var w', more := ArmAll(w.Pop(), cb(|fired|, w.slots[0][0])), fired + [w.slots[0][0]];
              Rest(w, now, cb, fired, calls)
              == if w'.None? then (more, Aborted) else Rest(w'.value, now, cb, more, calls - 1)
    {
      hide ArmAll;
      var o := w.slots[0][0];
      var w', more := ArmAll(w.Pop(), cb(|fired|, o)), fired + [o];
      if w'.Some? {
        PrependMore(fired, o, TimerExpire.Expire(w'.value, now, cb, |more|, calls - 1));
      }
    }

    static lemma PrependMore(fired: seq<Obj>, o: Obj, r: (seq<Obj>, Outcome<Wheel<Obj>>))
      ensures Prepend(fired, Prepend([o], r)) == Prepend(fired + [o], r)
    {
      assert fired + ([o] + r.0) == (fired + [o]) + r.0;
    }

    static lemma ExpireTick(w: Wheel<Obj>, now: Timespec, cb: Callback<Obj>, fired: seq<Obj>, calls: nat)
      requires w.Valid() && now.Normal() && AtMost(w.epoch, now) && w.slots[0] == []
      ensures w.Tick().Valid() && Rest(w, now, cb, fired, calls) == Rest(w.Tick(), now, cb, fired, calls)
    {
      PlusIsExact(w.epoch, w.incr);
    }

    static lemma ExpireStops(w: Wheel<Obj>, now: Timespec, cb: Callback<Obj>, fired: seq<Obj>, calls: nat)
      requires w.Valid() && now.Normal() && !AtMost(w.epoch, now)
      ensures Rest(w, now, cb, fired, calls) == (fired, Ended(w))
    {
      assert fired + [] == fired;
    }

    /** Takes the first object off the list in the given cell and calls back. */
    method FireFront(list: nat, cb: Callback<Obj>, n: nat) returns (o: Obj, aborted: bool)
      requires Valid() && carray.IsCell(list, 0) && carray.cells[list] != []
      modifies carray.cells
      ensures Valid()
      ensures o == old(Model()).slots[0][0]
      ensures var w' := ArmAll(old(Model()).Pop(), cb(n, o));
              && (aborted <==> w'.None?)
              && (!aborted ==> Model() == w'.value)
    {
      ghost var w := Model();
      o := carray.cells[list][0];
      carray.Assign(list, 0, carray.cells[list][1..]);
      assert Model() == w.Pop();
      aborted := ArmTimers(cb(n, o));
    }

    /** The timers a callback sets, one after the other. */
    method ArmTimers(rs: seq<Rearm<Obj>>) returns (aborted: bool)
      requires Valid()
      modifies carray.cells
      ensures Valid()
      ensures aborted <==> ArmAll(old(Model()), rs).None?
      ensures !aborted ==> Model() == ArmAll(old(Model()), rs).value
    {
      aborted := false;
      ghost var goal := ArmAll(Model(), rs);
      for i := 0 to |rs|
        invariant Valid() && !aborted && goal == ArmAll(Model(), rs[i..])
      {
        aborted := Insert(rs[i].at, rs[i].ms, rs[i].obj);
        if aborted {
          return;
        }
      }
    }
  }

  ghost function Prepend<Obj>(fired: seq<Obj>, r: (seq<Obj>, Outcome<Wheel<Obj>>)): (seq<Obj>, Outcome<Wheel<Obj>>) {
    (fired + r.0, r.1)
  }
}
