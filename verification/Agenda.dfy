/** The reference a timer wheel is measured against: the pending timers as one list
    of (object, due instant) pairs in the order they were set.  It knows nothing of
    slots, ticks or a rotating index. */
module Agenda {

  /** `due` is an instant in nanoseconds. */
  datatype Entry<+Obj> = Entry(obj: Obj, due: int)

  function Without<Obj(==)>(s: seq<Obj>, o: Obj): seq<Obj> {
    if s == [] then [] else (if s[0] == o then [] else [s[0]]) + Without(s[1..], o)
  }

  function Cancel<Obj(==)>(a: seq<Entry<Obj>>, o: Obj): seq<Entry<Obj>> {
    if a == [] then [] else (if a[0].obj == o then [] else [a[0]]) + Cancel(a[1..], o)
  }

  /** Setting a timer replaces the object's pending one. */
  function Set<Obj(==)>(a: seq<Entry<Obj>>, o: Obj, due: int): seq<Entry<Obj>> {
    Cancel(a, o) + [Entry(o, due)]
  }

  /** The objects due at one instant, oldest first. */
  function DueAt<Obj>(a: seq<Entry<Obj>>, t: int): seq<Obj> {
    if a == [] then [] else (if a[0].due == t then [a[0].obj] else []) + DueAt(a[1..], t)
  }

  function Drop<T>(s: seq<T>, k: nat): seq<T>
    requires k < |s|
  {
    s[..k] + s[k + 1..]
  }

  /** Entry k is the one a stable priority queue serves first: nothing is due before
      it, and nothing set earlier is due at the same instant. */
  ghost predicate IsEarliest<Obj>(a: seq<Entry<Obj>>, k: nat) {
    k < |a|
    && (forall j :: 0 <= j < k ==> a[j].due > a[k].due)
    && (forall j :: k < j < |a| ==> a[j].due >= a[k].due)
  }

  /** The index of that entry. */
  function Earliest<Obj>(a: seq<Entry<Obj>>): (k: nat)
    requires a != []
    ensures IsEarliest(a, k)
  {
    if |a| == 1 then 0
    else
      var k := Earliest(a[1..]);
      if a[0].due <= a[1 + k].due then 0 else 1 + k
  }

  ghost predicate AllLater<Obj>(a: seq<Entry<Obj>>, t: int) {
    forall e :: e in a ==> e.due > t
  }

  ghost predicate SetOnce<Obj>(a: seq<Entry<Obj>>) {
    forall i, j :: 0 <= i < j < |a| ==> a[i].obj != a[j].obj
  }

  // ---- lists -------------------------------------------------------------

  lemma {:induction false} WithoutAppend<Obj>(s: seq<Obj>, t: seq<Obj>, o: Obj)
    ensures Without(s + t, o) == Without(s, o) + Without(t, o)
  {
    if s == [] {
      assert s + t == t;
    } else {
      var head := if s[0] == o then [] else [s[0]];
      assert (s + t)[0] == s[0] && (s + t)[1..] == s[1..] + t;
      WithoutAppend(s[1..], t, o);
      assert head + (Without(s[1..], o) + Without(t, o)) == (head + Without(s[1..], o)) + Without(t, o);
    }
  }

  lemma {:induction false} WithoutMembers<Obj>(s: seq<Obj>, o: Obj)
    ensures multiset(Without(s, o)) == multiset(s)[o := 0]
    ensures |Without(s, o)| <= |s|
  {
    if s != [] {
      assert s == [s[0]] + s[1..];
      WithoutMembers(s[1..], o);
    } else {
      assert multiset(s)[o := 0] == multiset{};
    }
  }

  lemma {:induction false} DueAtAppend<Obj>(a: seq<Entry<Obj>>, b: seq<Entry<Obj>>, t: int)
    ensures DueAt(a + b, t) == DueAt(a, t) + DueAt(b, t)
  {
    if a == [] {
      assert a + b == b;
    } else {
      var head := if a[0].due == t then [a[0].obj] else [];
      assert (a + b)[0] == a[0] && (a + b)[1..] == a[1..] + b;
      DueAtAppend(a[1..], b, t);
      assert head + (DueAt(a[1..], t) + DueAt(b, t)) == (head + DueAt(a[1..], t)) + DueAt(b, t);
    }
  }

  lemma {:induction false} DueAtCancel<Obj>(a: seq<Entry<Obj>>, o: Obj, t: int)
    ensures DueAt(Cancel(a, o), t) == Without(DueAt(a, t), o)
  {
    if a != [] {
      DueAtCancel(a[1..], o, t);
      var head := if a[0].due == t then [a[0].obj] else [];
      WithoutAppend(head, DueAt(a[1..], t), o);
      DueAtAppend(if a[0].obj == o then [] else [a[0]], Cancel(a[1..], o), t);
    }
  }

  lemma {:induction false} DueAtEmpty<Obj>(a: seq<Entry<Obj>>, t: int)
    ensures DueAt(a, t) == [] <==> forall e :: e in a ==> e.due != t
  {
    if a != [] {
      assert forall e :: e in a <==> e == a[0] || e in a[1..];
      DueAtEmpty(a[1..], t);
    }
  }

  lemma {:induction false} CancelKeeps<Obj>(a: seq<Entry<Obj>>, o: Obj, e: Entry<Obj>)
    ensures e in Cancel(a, o) <==> e in a && e.obj != o
  {
    if a != [] {
      assert e in a <==> e == a[0] || e in a[1..];
      CancelKeeps(a[1..], o, e);
    }
  }

  lemma {:induction false} CancelSetOnce<Obj>(a: seq<Entry<Obj>>, o: Obj)
    requires SetOnce(a)
    ensures SetOnce(Cancel(a, o))
  {
    if a != [] {
      var rest := a[1..];
      assert SetOnce(rest);
      CancelSetOnce(rest, o);
      forall e | e in Cancel(rest, o) ensures e.obj != a[0].obj {
        CancelKeeps(rest, o, e);
      }
    }
  }

  lemma SetKeepsSetOnce<Obj>(a: seq<Entry<Obj>>, o: Obj, due: int)
    requires SetOnce(a)
    ensures SetOnce(Set(a, o, due))
    ensures forall e :: e in Set(a, o, due) <==> e == Entry(o, due) || (e in a && e.obj != o)
  {
    CancelSetOnce(a, o);
    forall e ensures e in Cancel(a, o) <==> e in a && e.obj != o {
      CancelKeeps(a, o, e);
    }
  }

  /** The oldest entry due at t, and what DueAt looks like once it is dropped. */
  lemma {:induction false} OldestAt<Obj>(a: seq<Entry<Obj>>, t: int) returns (k: nat)
    requires DueAt(a, t) != []
    ensures k < |a| && a[k].due == t && a[k].obj == DueAt(a, t)[0]
    ensures forall j :: 0 <= j < k ==> a[j].due != t
  {
    if a[0].due == t {
      k := 0;
    } else {
      k := OldestAt(a[1..], t);
      k := k + 1;
    }
  }

  lemma DropOldest<Obj>(a: seq<Entry<Obj>>, k: nat, t: int)
    requires k < |a|
    requires forall j :: 0 <= j < k ==> a[j].due != a[k].due
    ensures t == a[k].due ==> DueAt(a, t) == [a[k].obj] + DueAt(Drop(a, k), t)
    ensures t != a[k].due ==> DueAt(a, t) == DueAt(Drop(a, k), t)
  {
    assert a == a[..k] + ([a[k]] + a[k + 1..]);
    DueAtAppend(a[..k], [a[k]] + a[k + 1..], t);
    DueAtAppend([a[k]], a[k + 1..], t);
    DueAtAppend(a[..k], a[k + 1..], t);
    if t == a[k].due {
      forall e | e in a[..k] ensures e.due != t {
        var j :| 0 <= j < k && a[j] == e;
      }
      DueAtEmpty(a[..k], t);
    }
  }

  lemma DropKeepsSetOnce<Obj>(a: seq<Entry<Obj>>, k: nat)
    requires SetOnce(a) && k < |a|
    ensures SetOnce(Drop(a, k))
    ensures forall e :: e in Drop(a, k) <==> e in a && e.obj != a[k].obj
  {
    var d := Drop(a, k);
    assert forall i :: 0 <= i < |d| ==> d[i] == a[if i < k then i else i + 1];
    forall e | e in a && e.obj != a[k].obj ensures e in d {
      var i :| 0 <= i < |a| && a[i] == e;
      assert d[if i < k then i else i - 1] == e;
    }
  }
}
