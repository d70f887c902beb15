/** Facts about finite sets that loops over sets rest on: picking, sizes, sums, and the ascending order. */
module Sets {

  lemma SomeMember(s: set<int>)
    ensures s == {} || exists x :: x in s
  {
    if forall x :: x !in s {
      assert s == {};
    }
  }

  lemma {:induction false} SubsetSize<T>(a: set<T>, b: set<T>)
    requires a <= b
    ensures |a| <= |b| && (|a| == |b| ==> a == b)
  {
    if a != {} {
      var x :| x in a;
      SubsetSize(a - {x}, b - {x});
    }
  }

  // ── Integer sums over a set ─────────────────────────────────────────────

  ghost function Total<T(!new)>(s: set<T>, f: T -> int): int {
    if s == {} then 0
    else
      var x :| x in s;
      f(x) + Total(s - {x}, f)
  }

  lemma {:induction false} TotalRemove<T(!new)>(s: set<T>, x: T, f: T -> int)
    requires x in s
    ensures Total(s, f) == f(x) + Total(s - {x}, f)
    decreases s
  {
    var y :| y in s && Total(s, f) == f(y) + Total(s - {y}, f);
    if y != x {
      TotalRemove(s - {y}, x, f);
      TotalRemove(s - {x}, y, f);
      assert s - {y} - {x} == s - {x} - {y};
    }
  }

  lemma {:induction false} TotalCong<T(!new)>(s: set<T>, f: T -> int, g: T -> int)
    requires forall x :: x in s ==> f(x) == g(x)
    ensures Total(s, f) == Total(s, g)
  {
    if s != {} {
      var x :| x in s;
      TotalRemove(s, x, f);
      TotalRemove(s, x, g);
      TotalCong(s - {x}, f, g);
    }
  }

  // ── Ascending order ─────────────────────────────────────────────────────

  ghost predicate IsLeast(s: set<int>, m: int) {
    m in s && forall x :: x in s ==> m <= x
  }

  lemma {:induction false} LeastExists(s: set<int>)
    requires s != {}
    ensures exists m :: IsLeast(s, m)
  {
    SomeMember(s);
    var x :| x in s;
    if s == {x} {
      assert IsLeast(s, x);
    } else {
      LeastExists(s - {x});
      var m :| IsLeast(s - {x}, m);
      assert forall y :: y in s ==> y == x || y in s - {x};
      assert IsLeast(s, if m < x then m else x);
    }
  }

  ghost function Least(s: set<int>): (m: int)
    requires s != {}
    ensures IsLeast(s, m)
  {
    LeastExists(s);
    var m :| IsLeast(s, m);
    m
  }

  /** `sorted(s)`. */
  ghost function Ascending(s: set<int>): seq<int> {
    if s == {} then [] else [Least(s)] + Ascending(s - {Least(s)})
  }

  lemma {:induction false} AscendingIsSorted(s: set<int>)
    ensures forall x :: x in Ascending(s) <==> x in s
    ensures forall i, j :: 0 <= i < j < |Ascending(s)| ==> Ascending(s)[i] < Ascending(s)[j]
  {
    if s != {} {
      var m := Least(s);
      AscendingIsSorted(s - {m});
      var tail := Ascending(s - {m});
      assert Ascending(s) == [m] + tail;
      forall x ensures x in Ascending(s) <==> x in s {
        assert x in [m] + tail <==> x == m || x in tail;
      }
      forall i, j | 0 <= i < j < |Ascending(s)| ensures Ascending(s)[i] < Ascending(s)[j] {
        assert tail[j - 1] in tail;
      }
    }
  }

  method FindLeast(s: set<int>) returns (m: int)
    requires s != {}
    ensures m == Least(s)
  {
    SomeMember(s);
    m :| m in s;
    var rest := s - {m};
    while rest != {}
      invariant m in s && rest <= s && forall x :: x in s && x !in rest ==> m <= x
      decreases rest
    {
      SomeMember(rest);
      var x :| x in rest;
      if x < m {
        m := x;
      }
      rest := rest - {x};
    }
    assert IsLeast(s, m);
  }

  method Sorted(s: set<int>) returns (order: seq<int>)
    ensures order == Ascending(s)
  {
    order := [];
    var rest := s;
    while rest != {}
      invariant order + Ascending(rest) == Ascending(s)
      decreases rest
    {
      var m := FindLeast(rest);
      order, rest := order + [m], rest - {m};
    }
  }
}
