/** `ORDER BY name` as SQLite does it: names compared byte by byte. */
module Ordering {
  import opened Common

  predicate Less(a: Bytes, b: Bytes) {
    if b == [] then false
    else if a == [] then true
    else a[0] < b[0] || (a[0] == b[0] && Less(a[1..], b[1..]))
  }

  /** `a` and `b` are alike up to `i`, where `a` ends or has the smaller byte. */
  ghost predicate Decides(a: Bytes, b: Bytes, i: nat) {
    i <= |a| && i < |b| && a[..i] == b[..i] && (i == |a| || a[i] < b[i])
  }

  lemma {:induction false} DecidesLess(a: Bytes, b: Bytes, i: nat)
    requires Decides(a, b, i)
    ensures Less(a, b)
    decreases i
  {
    if i == 0 {
    } else {
      assert a[0] == a[..i][0] == b[..i][0] == b[0];
      assert a[1..][..i - 1] == a[..i][1..] && b[1..][..i - 1] == b[..i][1..];
      DecidesLess(a[1..], b[1..], i - 1);
    }
  }

  lemma {:induction false} LessDecided(a: Bytes, b: Bytes) returns (i: nat)
    requires Less(a, b)
    ensures Decides(a, b, i)
  {
    if a == [] || a[0] < b[0] {
      i := 0;
    } else {
      var k := LessDecided(a[1..], b[1..]);
      i := k + 1;
      assert a[..i] == [a[0]] + a[1..][..k] && b[..i] == [b[0]] + b[1..][..k];
    }
  }

  /** The first byte in which two names differ decides; if there is none, the shorter name comes first. */
  lemma {:induction false} LessIff(a: Bytes, b: Bytes)
    ensures Less(a, b) <==> exists i: nat :: Decides(a, b, i)
  {
    hide Decides, Less;
    if Less(a, b) { var i := LessDecided(a, b); }
    if i: nat :| Decides(a, b, i) { DecidesLess(a, b, i); }
  }

  lemma {:induction false} LessIrreflexive(a: Bytes)
    ensures !Less(a, a)
  {
    if a == [] {
    } else {
      LessIrreflexive(a[1..]);
    }
  }

  lemma {:induction false} LessTransitive(a: Bytes, b: Bytes, c: Bytes)
    requires Less(a, b) && Less(b, c)
    ensures Less(a, c)
  {
    if a == [] || a[0] != b[0] || b[0] != c[0] {
    } else {
      LessTransitive(a[1..], b[1..], c[1..]);
    }
  }

  lemma {:induction false} LessTotal(a: Bytes, b: Bytes)
    ensures a == b || Less(a, b) || Less(b, a)
  {
    if a == [] || b == [] || a[0] != b[0] {
    } else {
      LessTotal(a[1..], b[1..]);
      assert a == [a[0]] + a[1..] && b == [b[0]] + b[1..];
    }
  }

  predicate IsLeast(m: Bytes, s: set<Bytes>) {
    m in s && forall x <- s :: x == m || Less(m, x)
  }

  lemma {:induction false} LeastExists(s: set<Bytes>)
    requires s != {}
    ensures exists m :: IsLeast(m, s)
    decreases s
  {
    var x :| x in s;
    if s - {x} == {} {
      assert s == {x};
      assert IsLeast(x, s);
    } else {
      LeastExists(s - {x});
      var m :| IsLeast(m, s - {x});
      LessTotal(m, x);
      if Less(m, x) {
        assert IsLeast(m, s);
      } else {
        forall y <- s | y != x && y != m ensures Less(x, y) { LessTransitive(x, m, y); }
        assert IsLeast(x, s);
      }
    }
  }

  lemma {:induction false} LeastUnique(s: set<Bytes>)
    ensures forall m, n :: IsLeast(m, s) && IsLeast(n, s) ==> m == n
  {
    forall m, n | IsLeast(m, s) && IsLeast(n, s) ensures m == n {
      if m != n {
        LessTransitive(m, n, m);
        LessIrreflexive(m);
      }
    }
  }

  function Sorted(s: set<Bytes>): seq<Bytes> {
    if s == {} then []
    else
      LeastExists(s);
      LeastUnique(s);
      var m :| IsLeast(m, s);
      [m] + Sorted(s - {m})
  }

  ghost predicate Ascending(names: seq<Bytes>) {
    forall i, j :: 0 <= i < j < |names| ==> Less(names[i], names[j])
  }

  /** The order is strict, so every element comes exactly once. */
  lemma {:induction false} SortedIsOrder(s: set<Bytes>)
    ensures Ascending(Sorted(s)) && |Sorted(s)| == |s|
    ensures forall x :: x in Sorted(s) <==> x in s
    decreases s
  {
    if s == {} {
    } else {
      LeastExists(s);
      LeastUnique(s);
      var m :| IsLeast(m, s);
      SortedIsOrder(s - {m});
      assert Sorted(s) == [m] + Sorted(s - {m});
    }
  }

  lemma {:induction false} AscendingDistinct(names: seq<Bytes>, i: nat, j: nat)
    requires Ascending(names) && i < |names| && j < |names| && names[i] == names[j]
    ensures i == j
  {
    LessIrreflexive(names[i]);
  }
}
