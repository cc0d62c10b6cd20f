/** Lists as sets, and counting. */
module Collections {
  predicate Distinct<T(==)>(s: seq<T>) {
    forall i, j :: 0 <= i < j < |s| ==> s[i] != s[j]
  }

  function SetOf<T>(s: seq<T>): set<T> {
    set x | x in s
  }

  /** A list has as many elements as its set exactly when it repeats none. */
  lemma {:induction false} SetSize<T>(s: seq<T>)
    ensures |SetOf(s)| <= |s|
    ensures Distinct(s) <==> |SetOf(s)| == |s|
  {
    if s != [] {
      var n := |s| - 1;
      SetSize(s[..n]);
      DistinctInit(s);
      assert SetOf(s) == SetOf(s[..n]) + {s[n]};
      if s[n] in s[..n] {
        assert SetOf(s) == SetOf(s[..n]);
      }
    }
  }

  lemma DistinctInit<T>(s: seq<T>)
    requires s != []
    ensures Distinct(s) <==> Distinct(s[..|s| - 1]) && s[|s| - 1] !in s[..|s| - 1]
  {
    var n := |s| - 1;
    assert forall i :: 0 <= i < n ==> s[..n][i] == s[i];
  }

  lemma DistinctSnoc<T>(s: seq<T>, x: T)
    requires Distinct(s) && x !in s
    ensures Distinct(s + [x]) && SetOf(s + [x]) == SetOf(s) + {x}
  {
  }

  lemma DistinctParts<T>(a: seq<T>, b: seq<T>)
    requires Distinct(a + b)
    ensures Distinct(a) && Distinct(b) && forall i, j :: 0 <= i < |a| && 0 <= j < |b| ==> a[i] != b[j]
  {
    assert forall i :: 0 <= i < |a| ==> a[i] == (a + b)[i];
    assert forall j :: 0 <= j < |b| ==> b[j] == (a + b)[|a| + j];
  }

  lemma Contained<T>(part: set<T>, whole: set<T>)
    requires part <= whole
    ensures |part| <= |whole|
  {
    assert part + (whole - part) == whole;
  }

  lemma Smaller<T>(part: set<T>, whole: set<T>, missing: T)
    requires part <= whole && missing in whole - part
    ensures |part| < |whole|
  {
    assert part + (whole - part) == whole;
  }

  lemma OneMore<T>(small: set<T>, big: set<T>) returns (x: T)
    requires |small| < |big|
    ensures x in big - small
  {
    assert big == big * small + (big - small);
    Contained(big * small, small);
    assert |big - small| >= 1;
    x :| x in big - small;
  }

  lemma {:induction false} FreshNumber(used: set<nat>) returns (b: nat)
    ensures forall x :: x in used ==> x < b
  {
    if used == {} {
      b := 0;
    } else {
      var x :| x in used;
      var c := FreshNumber(used - {x});
      b := if x < c then c else x + 1;
      forall y | y in used ensures y < b {
        assert y == x || y in used - {x};
      }
    }
  }
}
