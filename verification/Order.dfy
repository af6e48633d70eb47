/** The order a C++ `std::map` keeps its text keys in, octet by octet, and the walk over its keys. */
module Order {
  import opened Wrappers

  predicate LessEq(a: bytes, b: bytes) {
    a == [] || (b != [] && (a[0] < b[0] || (a[0] == b[0] && LessEq(a[1..], b[1..]))))
  }

  /** The first octets that differ decide; a text that is the start of another comes first. */
  ghost predicate DiffersAt(a: bytes, b: bytes, n: nat) {
    && n <= |a| && n <= |b| && a[..n] == b[..n]
    && (n == |a| || (n < |b| && a[n] < b[n]))
  }

  lemma {:induction false} LessEqExactly(a: bytes, b: bytes)
    ensures LessEq(a, b) <==> exists n: nat :: DiffersAt(a, b, n)
  {
    if a == [] {
      assert DiffersAt(a, b, 0);
    } else if b != [] && a[0] == b[0] {
      LessEqExactly(a[1..], b[1..]);
      if n: nat :| DiffersAt(a[1..], b[1..], n) {
        assert a[..n + 1] == [a[0]] + a[1..][..n] && b[..n + 1] == [b[0]] + b[1..][..n];
        assert DiffersAt(a, b, n + 1);
      }
      if n: nat :| DiffersAt(a, b, n) {
        assert n > 0;
        assert a[1..][..n - 1] == a[..n][1..] && b[1..][..n - 1] == b[..n][1..];
        assert DiffersAt(a[1..], b[1..], n - 1);
      }
    } else if b != [] && a[0] < b[0] {
      assert DiffersAt(a, b, 0);
    } else {
      forall n: nat
        ensures !DiffersAt(a, b, n)
      {
        if n > 0 && n <= |a| && n <= |b| {
          assert a[..n][0] == a[0] && b[..n][0] == b[0];
        }
      }
    }
  }

  lemma {:induction false} LessEqTotal(a: bytes, b: bytes)
    ensures LessEq(a, b) || LessEq(b, a)
    ensures LessEq(a, b) && LessEq(b, a) ==> a == b
  {
    if a != [] && b != [] {
      LessEqTotal(a[1..], b[1..]);
      assert a == [a[0]] + a[1..] && b == [b[0]] + b[1..];
    }
  }

  lemma {:induction false} LessEqTransitive(a: bytes, b: bytes, c: bytes)
    requires LessEq(a, b) && LessEq(b, c)
    ensures LessEq(a, c)
  {
    if a != [] && a[0] == b[0] && b[0] == c[0] {
      LessEqTransitive(a[1..], b[1..], c[1..]);
    }
  }

  predicate IsLeast(k: bytes, s: set<bytes>) {
    k in s && forall j :: j in s ==> LessEq(k, j)
  }

  lemma {:induction false} LeastExists(s: set<bytes>)
    requires s != {}
    ensures exists k :: IsLeast(k, s)
    decreases |s|
  {
    var x :| x in s;
    if s == {x} {
      LessEqTotal(x, x);
      assert IsLeast(x, s);
    } else {
      LeastExists(s - {x});
      var k :| IsLeast(k, s - {x});
      LessEqTotal(k, x);
      if LessEq(k, x) {
        assert IsLeast(k, s);
      } else {
        LessEqTotal(x, x);
        forall j | j in s
          ensures LessEq(x, j)
        {
          if j != x {
            LessEqTransitive(x, k, j);
          }
        }
        assert IsLeast(x, s);
      }
    }
  }

  lemma LeastUnique(s: set<bytes>)
    ensures forall j, k :: IsLeast(j, s) && IsLeast(k, s) ==> j == k
  {
    forall j, k | IsLeast(j, s) && IsLeast(k, s)
      ensures j == k
    {
      LessEqTotal(j, k);
    }
  }

  function Least(s: set<bytes>): (k: bytes)
    requires s != {}
    ensures IsLeast(k, s)
  {
    LeastExists(s);
    LeastUnique(s);
    var k :| k in s && IsLeast(k, s);
    k
  }

  /** The keys in ascending order. */
  function Sorted(s: set<bytes>): (keys: seq<bytes>)
    ensures forall k :: k in keys <==> k in s
    ensures |keys| == |s|
    decreases |s|
  {
    if s == {} then [] else
    var k := Least(s);
    var rest := Sorted(s - {k});
    assert forall j :: j in [k] + rest <==> j == k || j in rest;
    [k] + rest
  }

  lemma {:induction false} SortedAscends(s: set<bytes>)
    ensures forall i, j :: 0 <= i < j < |Sorted(s)| ==> LessEq(Sorted(s)[i], Sorted(s)[j]) && Sorted(s)[i] != Sorted(s)[j]
    decreases |s|
  {
    hide LessEq;
    if s != {} {
      var k := Least(s);
      var rest := Sorted(s - {k});
      SortedAscends(s - {k});
      forall i, j | 0 <= i < j < |Sorted(s)|
        ensures LessEq(Sorted(s)[i], Sorted(s)[j]) && Sorted(s)[i] != Sorted(s)[j]
      {
        assert Sorted(s)[j] == rest[j - 1];
        assert Sorted(s)[j] in rest;
        if i > 0 {
          assert Sorted(s)[i] == rest[i - 1];
        }
      }
    }
  }
}
