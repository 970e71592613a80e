/** Byte-wise string order and the sorted listing of a set of names, as `cmp.Compare`,
    `slices.SortFunc` and `sets.List` give them. */
module Ordering {

  predicate Less(a: string, b: string)
  {
    b != [] && (a == [] || a[0] < b[0] || (a[0] == b[0] && Less(a[1..], b[1..])))
  }

  lemma LessTotal(a: string, b: string)
    ensures a == b || Less(a, b) || Less(b, a)
  {
    if a != [] && b != [] && a[0] == b[0] {
      LessTotal(a[1..], b[1..]);
      assert a == [a[0]] + a[1..] && b == [b[0]] + b[1..];
    }
  }

  lemma {:induction false} LessTransitive(a: string, b: string, c: string)
    requires Less(a, b) && Less(b, c)
    ensures Less(a, c)
  {
    if a != [] && a[0] == b[0] == c[0] {
      LessTransitive(a[1..], b[1..], c[1..]);
    }
  }

  lemma LessIrreflexive(a: string)
    ensures !Less(a, a)
  {
  }

  /** One string comes before another exactly if it is a proper prefix of it, or has the smaller character where
      they first differ. */
  lemma {:induction false} LessExactly(a: string, b: string)
    ensures Less(a, b) <==>
              exists k | 0 <= k <= |a| && k < |b| :: a[..k] == b[..k] && (k == |a| || a[k] < b[k])
  {
    if b != [] {
      if a == [] {
        assert a[..0] == b[..0];
      } else if a[0] == b[0] {
        LessExactly(a[1..], b[1..]);
        if Less(a, b) {
          var x, y := a[1..], b[1..];
          var k :| 0 <= k <= |x| && k < |y| && x[..k] == y[..k] && (k == |x| || x[k] < y[k]);
          assert a[..k + 1] == [a[0]] + a[1..][..k] && b[..k + 1] == [b[0]] + b[1..][..k];
        }
        if k :| 0 <= k <= |a| && k < |b| && a[..k] == b[..k] && (k == |a| || a[k] < b[k]) {
          assert k > 0;
          assert a[1..][..k - 1] == a[..k][1..] && b[1..][..k - 1] == b[..k][1..];
        }
      } else {
        assert a[..0] == b[..0];
        if k :| 0 <= k <= |a| && k < |b| && a[..k] == b[..k] && (k == |a| || a[k] < b[k]) {
          if k > 0 { assert a[..k][0] == b[..k][0]; }
        }
      }
    }
  }

  /** Strictly increasing, so also free of repetitions. */
  ghost predicate Ascending(s: seq<string>)
  {
    forall i, j | 0 <= i < j < |s| :: Less(s[i], s[j])
  }

  predicate IsLeast(x: string, s: set<string>)
  {
    x in s && forall y | y in s && y != x :: Less(x, y)
  }

  lemma LeastExists(s: set<string>)
    requires s != {}
    ensures exists x :: IsLeast(x, s)
  {
    var x :| x in s;
    if s - {x} == {} {
      assert s == {x};
      assert IsLeast(x, s);
    } else {
      LeastExists(s - {x});
      var y :| IsLeast(y, s - {x});
      LessTotal(x, y);
      if Less(x, y) {
        forall z | z in s && z != x ensures Less(x, z) {
          if z != y { LessTransitive(x, y, z); }
        }
        assert IsLeast(x, s);
      } else {
        assert IsLeast(y, s);
      }
    }
  }

  lemma LeastIsUnique(s: set<string>)
    ensures forall x, y :: IsLeast(x, s) && IsLeast(y, s) ==> x == y
  {
    forall x, y | IsLeast(x, s) && IsLeast(y, s) ensures x == y {
      if x != y {
        LessTransitive(x, y, x);
        LessIrreflexive(x);
      }
    }
  }

  function Least(s: set<string>): (x: string)
    requires s != {}
    ensures IsLeast(x, s)
  {
    LeastExists(s);
    LeastIsUnique(s);
    var x :| x in s && IsLeast(x, s);
    x
  }

  function Elements<T>(s: seq<T>): set<T> { set x | x in s }

  lemma PrependLeast(x: string, rest: seq<string>, s: set<string>)
    requires IsLeast(x, s) && Ascending(rest) && Elements(rest) == s - {x}
    ensures Ascending([x] + rest) && Elements([x] + rest) == s
  {
    var r := [x] + rest;
    forall i, j | 0 <= i < j < |r| ensures Less(r[i], r[j]) {
      assert r[j] == rest[j - 1] && rest[j - 1] in Elements(rest);
    }
    forall y ensures y in r <==> y in s {
      if y in s && y != x {
        assert y in Elements(rest);
        var i :| 0 <= i < |rest| && rest[i] == y;
        assert r[i + 1] == y;
      }
      if y in r {
        var i :| 0 <= i < |r| && r[i] == y;
        assert i > 0 ==> rest[i - 1] in Elements(rest);
      }
      assert r[0] == x;
    }
  }

  /** The elements of `s` in increasing order. */
  function Sorted(s: set<string>): (r: seq<string>)
    ensures Ascending(r) && Elements(r) == s && |r| == |s|
    decreases |s|
  {
    if s == {} then []
    else
      var x := Least(s);
      var rest := Sorted(s - {x});
      PrependLeast(x, rest, s);
      [x] + rest
  }

  lemma SortedHolds(s: set<string>, x: string)
    ensures x in Sorted(s) <==> x in s
  {
    assert x in Sorted(s) <==> x in Elements(Sorted(s));
  }

  lemma {:induction false} AscendingIsUnique(a: seq<string>, b: seq<string>)
    requires Ascending(a) && Ascending(b) && Elements(a) == Elements(b)
    ensures a == b
  {
    assert (a != [] ==> a[0] in Elements(a)) && (b != [] ==> b[0] in Elements(b));
    if a != [] {
      FirstIsLeast(a);
      FirstIsLeast(b);
      LessIrreflexive(a[0]);
      if a[0] != b[0] {
        assert a[0] in Elements(b) && b[0] in Elements(a);
        LessTransitive(a[0], b[0], a[0]);
      }
      TailElements(a);
      TailElements(b);
      AscendingIsUnique(a[1..], b[1..]);
      assert a == [a[0]] + a[1..] && b == [b[0]] + b[1..];
    }
  }

  lemma FirstIsLeast(a: seq<string>)
    requires Ascending(a) && a != []
    ensures IsLeast(a[0], Elements(a))
  {
  }

  lemma TailElements(a: seq<string>)
    requires Ascending(a) && a != []
    ensures Elements(a[1..]) == Elements(a) - {a[0]}
  {
    LessIrreflexive(a[0]);
    forall x | x in Elements(a) - {a[0]} ensures x in a[1..] {
      var i :| 0 <= i < |a| && a[i] == x;
      assert a[1..][i - 1] == x;
    }
    forall x | x in a[1..] ensures x != a[0] {
      var i :| 0 <= i < |a| - 1 && a[1..][i] == x;
      assert a[i + 1] == x && Less(a[0], a[i + 1]);
    }
  }

  lemma AscendingDistinct(a: seq<string>)
    requires Ascending(a)
    ensures forall i, j | 0 <= i < j < |a| :: a[i] != a[j]
  {
    forall i, j | 0 <= i < j < |a| ensures a[i] != a[j] {
      LessIrreflexive(a[i]);
    }
  }
}
