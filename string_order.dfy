/** Python's ordering of `str` values: lexicographic by code point, a proper prefix first. */
module StringOrder {

  predicate Less(a: string, b: string): (r: bool)
    ensures r ==> a != b
    // a proper prefix sorts first
    ensures |a| < |b| && a == b[..|a|] ==> r
  {
    if |a| == 0 then |b| > 0
    else if |b| == 0 then false
    else if a[0] < b[0] then true
    else a[0] == b[0] && Less(a[1..], b[1..])
  }

  lemma {:induction false} LessIrreflexive(a: string)
    ensures !Less(a, a)
  {
    if |a| > 0 {
      LessIrreflexive(a[1..]);
    }
  }

  lemma {:induction false} LessAsymmetric(a: string, b: string)
    requires Less(a, b)
    ensures !Less(b, a)
  {
    if |a| > 0 && |b| > 0 && a[0] == b[0] {
      LessAsymmetric(a[1..], b[1..]);
    }
  }

  lemma {:induction false} LessTransitive(a: string, b: string, c: string)
    requires Less(a, b) && Less(b, c)
    ensures Less(a, c)
  {
    if |a| > 0 && a[0] == b[0] && b[0] == c[0] {
      LessTransitive(a[1..], b[1..], c[1..]);
    }
  }

  lemma {:induction false} LessTotal(a: string, b: string)
    requires a != b
    ensures Less(a, b) || Less(b, a)
  {
    if |a| > 0 && |b| > 0 && a[0] == b[0] {
      assert a == [a[0]] + a[1..] && b == [b[0]] + b[1..];
      LessTotal(a[1..], b[1..]);
    }
  }

  /** Strictly increasing, hence also free of duplicates. */
  predicate StrictlySorted(s: seq<string>) {
    forall i, j :: 0 <= i < j < |s| ==> Less(s[i], s[j])
  }

  /** A non-empty finite set of strings has a least element. */
  lemma {:induction false} LeastExists(u: set<string>)
    requires u != {}
    ensures exists m :: m in u && forall y :: y in u ==> y == m || Less(m, y)
  {
    var x :| x in u;
    if u != {x} {
      var rest := u - {x};
      LeastExists(rest);
      var m :| m in rest && forall y :: y in rest ==> y == m || Less(m, y);
      LessTotal(x, m);
      if Less(x, m) {
        forall y | y in u
          ensures y == x || Less(x, y)
        {
          if y != x && y != m {
            LessTransitive(x, m, y);
          }
        }
      } else {
        assert forall y :: y in u ==> y == m || Less(m, y);
      }
    }
  }

  /** The first element of a strictly sorted sequence is below every other element. */
  lemma HeadIsLeast(a: seq<string>)
    requires StrictlySorted(a) && a != []
    ensures a[0] in a
    ensures forall f :: f in a ==> f == a[0] || Less(a[0], f)
  {
  }

  /** A set has exactly one strictly sorted listing. */
  lemma {:induction false} StrictlySortedUnique(a: seq<string>, b: seq<string>)
    requires StrictlySorted(a) && StrictlySorted(b)
    requires forall f :: f in a <==> f in b
    ensures a == b
  {
    if a == [] || b == [] {
      if a != [] {
        HeadIsLeast(a);
        assert false;
      } else if b != [] {
        HeadIsLeast(b);
        assert false;
      }
    } else {
      HeadIsLeast(a);
      HeadIsLeast(b);
      if a[0] != b[0] {
        LessAsymmetric(a[0], b[0]);
        assert false;
      }
      LessIrreflexive(a[0]);
      assert a == [a[0]] + a[1..] && b == [b[0]] + b[1..];
      forall f
        ensures f in a[1..] <==> f in b[1..]
      {
        if f in a[1..] {
          assert f in a && f != a[0];
        }
        if f in b[1..] {
          assert f in b && f != b[0];
        }
      }
      StrictlySortedUnique(a[1..], b[1..]);
    }
  }
}
