/**
  The ordering that `java.util.TreeSet<String>` imposes on type names and member
  names: strict lexicographic order on strings (the model compares characters,
  where `String.compareTo` compares UTF-16 code units), and the ascending list
  that a `TreeSet` built from a set yields when iterated.
 */
module Lexicographic {

  /** `a` sorts strictly before `b`: either `a` is a proper prefix of `b`, or at the
      first position where they differ `a` holds the smaller character. */
  predicate Less(a: string, b: string)
  {
    if |a| == 0 then |b| > 0
    else if |b| == 0 then false
    else if a[0] != b[0] then a[0] < b[0]
    else Less(a[1..], b[1..])
  }

  lemma {:induction false} LessIrreflexive(a: string)
    ensures !Less(a, a)
  {
    if |a| > 0 {
      LessIrreflexive(a[1..]);
    }
  }

  lemma {:induction false} LessTransitive(a: string, b: string, c: string)
    requires Less(a, b) && Less(b, c)
    ensures Less(a, c)
  {
    if |a| > 0 && a[0] == b[0] && b[0] == c[0] {
      LessTransitive(a[1..], b[1..], c[1..]);
    }
  }

  lemma {:induction false} LessTotal(a: string, b: string)
    ensures a == b || Less(a, b) || Less(b, a)
  {
    if |a| > 0 && |b| > 0 && a[0] == b[0] {
      LessTotal(a[1..], b[1..]);
      if a[1..] == b[1..] {
        assert a == [a[0]] + a[1..] && b == [b[0]] + b[1..];
      }
    }
  }

  /** Less is a strict total order; stated once for every pair so that callers
      can use all three facts without naming the strings. */
  lemma LessIsStrictTotalOrder()
    ensures forall a: string :: !Less(a, a)
    ensures forall a: string, b: string, c: string :: Less(a, b) && Less(b, c) ==> Less(a, c)
    ensures forall a: string, b: string :: a == b || Less(a, b) || Less(b, a)
  {
    forall a: string {
      LessIrreflexive(a);
    }
    forall a: string, b: string, c: string | Less(a, b) && Less(b, c) {
      LessTransitive(a, b, c);
    }
    forall a: string, b: string {
      LessTotal(a, b);
    }
  }

  predicate StrictlyAscending(s: seq<string>)
  {
    forall i, j :: 0 <= i < j < |s| ==> Less(s[i], s[j])
  }

  /** `m` is the least element of `s`. */
  predicate IsLeast(m: string, s: set<string>)
  {
    m in s && forall y :: y in s ==> m == y || Less(m, y)
  }

  lemma {:induction false} LeastExists(s: set<string>)
    requires s != {}
    ensures exists m :: IsLeast(m, s)
    decreases s
  {
    var x :| x in s;
    if s != {x} {
      LeastExists(s - {x});
      var m :| IsLeast(m, s - {x});
      LessTotal(x, m);
      if Less(x, m) {
        forall y | y in s
          ensures x == y || Less(x, y)
        {
          if y != x && y != m {
            LessTransitive(x, m, y);
          }
        }
        assert IsLeast(x, s);
      } else {
        assert IsLeast(m, s);
      }
    } else {
      assert IsLeast(x, s);
    }
  }

  /** The elements of `s` in the order a `TreeSet<String>` iterates them: the
      least element first, then the rest in the same order. */
  function Sorted(s: set<string>): seq<string>
    decreases s
  {
    if s == {} then []
    else
      LeastExists(s);
      LessIsStrictTotalOrder();
      var m :| IsLeast(m, s);
      [m] + Sorted(s - {m})
  }

  /** The list is strictly ascending and holds exactly the elements of the set. */
  lemma {:induction false} SortedMeaning(s: set<string>)
    ensures StrictlyAscending(Sorted(s))
    ensures forall x :: x in Sorted(s) <==> x in s
    decreases s
  {
    if s != {} {
      var r := Sorted(s);
      var m := r[0];
      assert IsLeast(m, s) && r == [m] + Sorted(s - {m});
      SortedMeaning(s - {m});
      forall i, j | 0 <= i < j < |r|
        ensures Less(r[i], r[j])
      {
        if i > 0 {
          assert r[i] == Sorted(s - {m})[i - 1] && r[j] == Sorted(s - {m})[j - 1];
        } else {
          assert r[j] == Sorted(s - {m})[j - 1];
          assert r[j] in s - {m};
        }
      }
    }
  }

  /** The ascending order is unique: two strictly ascending lists with the same
      elements are the same list, so the output cannot depend on the order in
      which the elements were collected. */
  lemma SameElementsBothEmpty(a: seq<string>, b: seq<string>)
    requires forall x :: x in a <==> x in b
    ensures a == [] <==> b == []
  {
    if a != [] {
      assert a[0] in b;
    }
    if b != [] {
      assert b[0] in a;
    }
  }

  lemma {:induction false} AscendingUnique(a: seq<string>, b: seq<string>)
    requires StrictlyAscending(a) && StrictlyAscending(b)
    requires forall x :: x in a <==> x in b
    ensures a == b
  {
    SameElementsBothEmpty(a, b);
    if a != [] && b != [] {
      LessIsStrictTotalOrder();
      // a[0] and b[0] are both the least element of the common set
      assert b[0] in b && a[0] in a;
      assert a[0] == b[0];
      forall x
        ensures x in a[1..] <==> x in b[1..]
      {
        if x in a[1..] {
          var i :| 1 <= i < |a| && a[i] == x;
          assert Less(a[0], x);
          assert x in a && x in b;
          var j :| 0 <= j < |b| && b[j] == x;
          assert j != 0;
          assert b[1..][j - 1] == x;
        }
        if x in b[1..] {
          var j :| 1 <= j < |b| && b[j] == x;
          assert Less(b[0], x);
          assert x in b && x in a;
          var i :| 0 <= i < |a| && a[i] == x;
          assert i != 0;
          assert a[1..][i - 1] == x;
        }
      }
      AscendingUnique(a[1..], b[1..]);
      assert a == [a[0]] + a[1..] && b == [b[0]] + b[1..];
    }
  }

  /** Sorting a set yields the one ascending list of its elements. */
  lemma SortedIsTheAscendingList(s: set<string>, r: seq<string>)
    requires StrictlyAscending(r)
    requires forall x :: x in r <==> x in s
    ensures Sorted(s) == r
  {
    SortedMeaning(s);
    AscendingUnique(Sorted(s), r);
  }

}
