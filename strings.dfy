/** Facts about strings that the crawler relies on: the lexicographic order
    that `String` comparison uses (and so the order in which an ordered set
    hands out its elements), and the splitting fact behind the `a:b` store
    keys and the `scheme://domain` roots. */
module Strings {

  /** Strict lexicographic order, comparing characters by code point: `a` is
      a proper prefix of `b`, or `a` has the smaller character at the first
      position where the two differ. On UTF-8 text this agrees with the byte
      order used by `Ord for String`. */
  predicate Less(a: string, b: string)
    ensures Less(a, b) ==> a != b
    ensures a < b ==> Less(a, b)
    decreases |a|
  {
    if |a| == 0 then |b| > 0
    else if |b| == 0 then false
    else if a[0] != b[0] then a[0] < b[0]
    else Less(a[1..], b[1..])
  }

  lemma {:induction false} LessIrreflexive(a: string)
    ensures !Less(a, a)
  {
    if |a| > 0 {
      LessIrreflexive(a[1..]);
    }
  }

  lemma {:induction false} LessAsymmetric(a: string, b: string)
    requires Less(a, b)
    ensures !Less(b, a)
    decreases |a|
  {
    if |a| > 0 && a[0] == b[0] {
      LessAsymmetric(a[1..], b[1..]);
    }
  }

  lemma {:induction false} LessTransitive(a: string, b: string, c: string)
    requires Less(a, b) && Less(b, c)
    ensures Less(a, c)
    decreases |a|
  {
    if |a| > 0 && a[0] == b[0] && b[0] == c[0] {
      LessTransitive(a[1..], b[1..], c[1..]);
    }
  }

  /** Any two different strings are ordered one way or the other, so "the
      smallest element" of a non-empty set of strings is well defined. */
  lemma {:induction false} LessTotal(a: string, b: string)
    requires a != b
    ensures Less(a, b) || Less(b, a)
    decreases |a|
  {
    if |a| > 0 && |b| > 0 && a[0] == b[0] {
      assert a == [a[0]] + a[1..] && b == [b[0]] + b[1..];
      LessTotal(a[1..], b[1..]);
    }
  }

  /** `m` is the smallest element of `s`. */
  predicate IsLeast(m: string, s: set<string>)
  {
    m in s && forall y :: y in s && y != m ==> Less(m, y)
  }

  lemma {:induction false} LeastExists(s: set<string>)
    requires s != {}
    ensures exists m :: IsLeast(m, s)
    decreases |s|
  {
    var x :| x in s;
    if s == {x} {
      assert IsLeast(x, s);
    } else {
      var rest := s - {x};
      LeastExists(rest);
      var m :| IsLeast(m, rest);
      if Less(x, m) {
        forall y | y in s && y != x
          ensures Less(x, y)
        {
          if y != m {
            LessTransitive(x, m, y);
          }
        }
        assert IsLeast(x, s);
      } else {
        LessTotal(x, m);
        assert IsLeast(m, s);
      }
    }
  }

  lemma LeastUnique(m1: string, m2: string, s: set<string>)
    requires IsLeast(m1, s) && IsLeast(m2, s)
    ensures m1 == m2
  {
    if m1 != m2 {
      LessAsymmetric(m1, m2);
    }
  }

  /** The smallest element of a non-empty set of strings. */
  ghost function Least(s: set<string>): (m: string)
    requires s != {}
    ensures IsLeast(m, s)
  {
    LeastExists(s);
    var m :| IsLeast(m, s);
    m
  }

  /** The elements of `s`, smallest first: what repeatedly taking the least
      element out of `s` yields. */
  ghost function Ascending(s: set<string>): seq<string>
    decreases |s|
  {
    if s == {} then [] else [Least(s)] + Ascending(s - {Least(s)})
  }

  /** `Ascending(s)` lists every element of `s` exactly once, in strictly
      increasing order. */
  lemma {:induction false} AscendingSpec(s: set<string>)
    ensures |Ascending(s)| == |s|
    ensures forall x :: x in Ascending(s) <==> x in s
    ensures forall i, j :: 0 <= i < j < |Ascending(s)| ==> Less(Ascending(s)[i], Ascending(s)[j])
    decreases |s|
  {
    if s != {} {
      var m := Least(s);
      var rest := Ascending(s - {m});
      AscendingSpec(s - {m});
      assert Ascending(s) == [m] + rest;
      forall i, j | 0 <= i < j < |Ascending(s)|
        ensures Less(Ascending(s)[i], Ascending(s)[j])
      {
        if i > 0 {
          assert Ascending(s)[i] == rest[i - 1] && Ascending(s)[j] == rest[j - 1];
        } else {
          assert Ascending(s)[j] == rest[j - 1];
          assert rest[j - 1] in s - {m};
        }
      }
    }
  }

  /** A sequence without repeated elements. */
  predicate Distinct(xs: seq<string>)
  {
    forall i, j :: 0 <= i < j < |xs| ==> xs[i] != xs[j]
  }

  /** The set of elements of a sequence. */
  function Elements(xs: seq<string>): set<string>
  {
    set x | x in xs
  }

  lemma {:induction false} DistinctElements(xs: seq<string>)
    requires Distinct(xs)
    ensures |Elements(xs)| == |xs|
  {
    if xs != [] {
      var t := xs[1..];
      assert Distinct(t) by {
        forall i, j | 0 <= i < j < |t| ensures t[i] != t[j] {
          assert t[i] == xs[i + 1] && t[j] == xs[j + 1];
        }
      }
      DistinctElements(t);
      assert Elements(xs) == {xs[0]} + Elements(t);
      assert xs[0] !in Elements(t) by {
        forall k | 0 <= k < |t| ensures t[k] != xs[0] {
          assert t[k] == xs[k + 1];
        }
      }
    }
  }

  /** The separator right after a shorter left part falls inside a longer
      one, so the two joins differ. */
  lemma SeparatorPosition(a1: string, b1: string, a2: string, b2: string, sep: char)
    requires |a1| < |a2| && sep !in a2
    ensures a1 + [sep] + b1 != a2 + [sep] + b2
  {
    assert (a1 + [sep] + b1)[|a1|] == sep;
    assert (a2 + [sep] + b2)[|a1|] == a2[|a1|];
  }

  /** Joining around a separator that occurs in neither left part can be
      undone: the separator's first occurrence marks where the left part
      ends. */
  lemma UnambiguousJoin(a1: string, b1: string, a2: string, b2: string, sep: char)
    requires sep !in a1 && sep !in a2
    ensures a1 + [sep] + b1 == a2 + [sep] + b2 <==> a1 == a2 && b1 == b2
  {
    var w1, w2 := a1 + [sep] + b1, a2 + [sep] + b2;
    if |a1| < |a2| {
      SeparatorPosition(a1, b1, a2, b2, sep);
    } else if |a2| < |a1| {
      SeparatorPosition(a2, b2, a1, b1, sep);
    } else {
      assert a1 == w1[..|a1|] && a2 == w2[..|a2|];
      assert b1 == w1[|a1| + 1..] && b2 == w2[|a2| + 1..];
    }
  }
}
