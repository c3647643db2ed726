/** The alphabetical order in which a BTreeMap of boot/mod.rs lists its keys. */
module ServiceNames {
  import opened ServiceGraph

  predicate Less(a: Name, b: Name) {
    |b| > 0 && (|a| == 0 || a[0] < b[0] || (a[0] == b[0] && Less(a[1..], b[1..])))
  }

  lemma {:induction false} LessStrict(a: Name, b: Name)
    requires Less(a, b)
    ensures a != b && !Less(b, a)
  {
    if |a| > 0 && a[0] == b[0] {
      LessStrict(a[1..], b[1..]);
    }
  }

  lemma {:induction false} LessTotal(a: Name, b: Name)
    ensures a == b || Less(a, b) || Less(b, a)
  {
    if |a| > 0 && |b| > 0 && a[0] == b[0] {
      LessTotal(a[1..], b[1..]);
      assert a == [a[0]] + a[1..] && b == [b[0]] + b[1..];
    }
  }

  lemma {:induction false} LessTrans(a: Name, b: Name, c: Name)
    requires Less(a, b) && Less(b, c)
    ensures Less(a, c)
  {
    if |a| > 0 && a[0] == b[0] && b[0] == c[0] {
      LessTrans(a[1..], b[1..], c[1..]);
    }
  }

  ghost predicate Least(u: set<Name>, n: Name) {
    n in u && forall x :: x in u && x != n ==> Less(n, x)
  }

  lemma {:induction false} LeastExists(u: set<Name>)
    requires u != {}
    ensures exists n :: Least(u, n)
  {
    var x :| x in u;
    var v := u - {x};
    if v == {} {
      assert u == {x};
      assert Least(u, x);
    } else {
      LeastExists(v);
      var n :| Least(v, n);
      LessTotal(x, n);
      if Less(n, x) {
        assert Least(u, n);
      } else {
        forall y | y in u && y != x
          ensures Less(x, y)
        {
          if y != n {
            LessTrans(x, n, y);
          }
        }
        assert Least(u, x);
      }
    }
  }

  predicate Alphabetical(s: seq<Name>) {
    forall i, j :: 0 <= i < j < |s| ==> Less(s[i], s[j])
  }

  /** The names of a set in their order. */
  ghost predicate Lists(s: seq<Name>, u: set<Name>) {
    Alphabetical(s) && forall n :: n in s <==> n in u
  }

  lemma AlphabeticalDistinct(s: seq<Name>)
    requires Alphabetical(s)
    ensures Distinct(s)
  {
    forall i, j | 0 <= i < j < |s|
      ensures s[i] != s[j]
    {
      LessStrict(s[i], s[j]);
    }
  }

  lemma AlphabeticalFront(s: seq<Name>)
    requires Alphabetical(s) && |s| > 0
    ensures var front := s[..|s| - 1];
            && Alphabetical(front) && (forall x :: x in front ==> Less(x, Last(s)))
            && forall x :: x in s <==> x in front || x == Last(s)
  {
    assert s == s[..|s| - 1] + [Last(s)];
  }

  lemma ListsTail(s: seq<Name>, u: set<Name>)
    requires Lists(s, u) && |s| > 0
    ensures Least(u, s[0]) && Lists(s[1..], u - {s[0]})
  {
    AlphabeticalDistinct(s);
    assert s == [s[0]] + s[1..];
  }

  /** A set has one alphabetical listing. */
  lemma {:induction false} ListingUnique(s: seq<Name>, t: seq<Name>, u: set<Name>)
    requires Lists(s, u) && Lists(t, u)
    ensures s == t
    decreases |s|
  {
    assert |t| > 0 ==> t[0] in u && t[0] in s;
    if |s| > 0 {
      assert s[0] in u && s[0] in t;
      ListsTail(s, u);
      ListsTail(t, u);
      if s[0] != t[0] {
        LessStrict(s[0], t[0]);
      }
      ListingUnique(s[1..], t[1..], u - {s[0]});
      assert s == [s[0]] + s[1..] && t == [t[0]] + t[1..];
    }
  }

  /** Iteration over the keys: the least name left is next. */
  method Enumerate(u: set<Name>) returns (keys: seq<Name>)
    ensures Lists(keys, u)
  {
    keys := [];
    var rest := u;
    while rest != {}
      invariant rest <= u && Lists(keys, u - rest) && forall x, y :: x in keys && y in rest ==> Less(x, y)
      decreases rest
    {
      LeastExists(rest);
      var n :| n in rest && forall x :: x in rest && x != n ==> Less(n, x);
      keys := keys + [n];
      rest := rest - {n};
    }
  }
}
