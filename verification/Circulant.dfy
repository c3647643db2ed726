/** Circulant 4 x 4 matrices of additive maps over any sum with the exchange law
    (a + b) + (c + d) == (a + c) + (b + d), such as exclusive or. */
module Circulant {
  datatype Col<T> = Col(a: T, b: T, c: T, d: T)

  ghost predicate Exch<T(!new)>(p: (T, T) -> T, a: T, b: T, c: T, d: T) {
    p(p(a, b), p(c, d)) == p(p(a, c), p(b, d))
  }

  ghost predicate Neutral<T(!new)>(p: (T, T) -> T, z: T, a: T) {
    p(a, z) == a && p(z, a) == a
  }

  ghost predicate Cancels<T(!new)>(p: (T, T) -> T, z: T, a: T) {
    p(a, a) == z
  }

  ghost predicate Swaps<T(!new)>(p: (T, T) -> T, a: T, b: T) {
    p(a, b) == p(b, a)
  }

  /** A commutative sum with the exchange law, a zero, and every element its own negative. */
  ghost predicate Addition<T(!new)>(p: (T, T) -> T, z: T) {
    && (forall a, b, c, d {:trigger Exch(p, a, b, c, d)} :: Exch(p, a, b, c, d))
    && (forall a {:trigger Neutral(p, z, a)} :: Neutral(p, z, a))
    && (forall a {:trigger Cancels(p, z, a)} :: Cancels(p, z, a))
    && (forall a, b {:trigger Swaps(p, a, b)} :: Swaps(p, a, b))
  }

  ghost predicate Splits<T(!new)>(p: (T, T) -> T, f: T -> T, a: T, b: T) {
    f(p(a, b)) == p(f(a), f(b))
  }

  ghost predicate Additive<T(!new)>(p: (T, T) -> T, z: T, f: T -> T) {
    && f(z) == z
    && forall a, b {:trigger Splits(p, f, a, b)} :: Splits(p, f, a, b)
  }

  /** A sum of additive maps is additive. */
  lemma SumAdditive<T(!new)>(p: (T, T) -> T, z: T, f: T -> T, h: T -> T, k: T -> T)
    requires Addition(p, z) && Additive(p, z, f) && Additive(p, z, h) && forall x :: k(x) == p(f(x), h(x))
    ensures Additive(p, z, k)
  {
    assert Neutral(p, z, z);
    forall a, b
      ensures Splits(p, k, a, b)
    {
      assert Splits(p, f, a, b) && Splits(p, h, a, b) && Exch(p, f(a), f(b), h(a), h(b));
    }
  }

  lemma Assoc<T(!new)>(p: (T, T) -> T, z: T, a: T, b: T, c: T)
    requires Addition(p, z)
    ensures p(p(a, b), c) == p(a, p(b, c))
  {
    assert Neutral(p, z, c) && Neutral(p, z, a) && Exch(p, a, b, z, c);
  }

  /** a + (a + b), (b + a) + a, and sums of two terms that share one. */
  lemma Drop<T(!new)>(p: (T, T) -> T, z: T, a: T, b: T)
    requires Addition(p, z)
    ensures p(a, p(a, b)) == b && p(p(b, a), a) == b && p(a, p(b, a)) == b && p(p(a, b), a) == b
  {
    Assoc(p, z, a, a, b);
    Assoc(p, z, b, a, a);
    assert Cancels(p, z, a) && Neutral(p, z, b) && Swaps(p, a, b) && Swaps(p, a, p(b, a));
  }

  lemma DropShared<T(!new)>(p: (T, T) -> T, z: T, a: T, b: T, c: T)
    requires Addition(p, z)
    ensures p(p(a, c), p(b, c)) == p(a, b) && p(p(c, a), p(c, b)) == p(a, b)
  {
    assert Exch(p, a, c, b, c) && Exch(p, c, a, c, b) && Cancels(p, z, c) && Neutral(p, z, p(a, b));
  }

  // ----- multiples over a doubling g

  function By3<T>(p: (T, T) -> T, g: T -> T, x: T): T { p(g(x), x) }

  function By5<T>(p: (T, T) -> T, g: T -> T, x: T): T { p(g(g(x)), x) }

  function By7<T>(p: (T, T) -> T, g: T -> T, x: T): T { p(g(By3(p, g, x)), x) }

  function By9<T>(p: (T, T) -> T, g: T -> T, x: T): T { p(g(g(g(x))), x) }

  function By11<T>(p: (T, T) -> T, g: T -> T, x: T): T { p(g(By5(p, g, x)), x) }

  function By13<T>(p: (T, T) -> T, g: T -> T, x: T): T { p(g(g(By3(p, g, x))), x) }

  function By14<T>(p: (T, T) -> T, g: T -> T, x: T): T { g(By7(p, g, x)) }

  /** Doubling commutes with tripling. */
  lemma Double3<T(!new)>(p: (T, T) -> T, z: T, g: T -> T, x: T)
    requires Additive(p, z, g)
    ensures g(By3(p, g, x)) == By3(p, g, g(x))
  {
    assert Splits(p, g, g(x), x);
  }

  lemma Expand11<T(!new)>(p: (T, T) -> T, z: T, g: T -> T, x: T)
    requires Addition(p, z) && Additive(p, z, g)
    ensures By11(p, g, x) == p(g(g(g(x))), By3(p, g, x))
  {
    assert Splits(p, g, g(g(x)), x);
    Assoc(p, z, g(g(g(x))), g(x), x);
  }

  lemma Expand13<T(!new)>(p: (T, T) -> T, z: T, g: T -> T, x: T)
    requires Additive(p, z, g)
    ensures By13(p, g, x) == p(By3(p, g, g(g(x))), x)
  {
    Double3(p, z, g, x);
    Double3(p, z, g, g(x));
  }

  lemma Expand14<T(!new)>(p: (T, T) -> T, z: T, g: T -> T, x: T)
    requires Additive(p, z, g)
    ensures By14(p, g, x) == p(By3(p, g, g(g(x))), g(x))
  {
    Double3(p, z, g, x);
    Double3(p, z, g, g(x));
    assert Splits(p, g, By3(p, g, g(x)), x);
  }

  /** Multiples of the triple, through t3 = 3 * 8x, t2 = 3 * 4x, t1 = 3 * 2x and t0 = 3 * x. */
  lemma Triples<T(!new)>(p: (T, T) -> T, z: T, g: T -> T, x: T)
    requires Addition(p, z) && Additive(p, z, g)
    ensures var x1 := g(x); var x2 := g(x1); var x3 := g(x2);
            var t0, t1, t2, t3 := By3(p, g, x), By3(p, g, x1), By3(p, g, x2), By3(p, g, x3);
            && g(t0) == t1 && g(t1) == t2 && g(t2) == t3
            && By9(p, g, t0) == p(t3, t0)
            && By11(p, g, t0) == p(t3, p(t1, t0))
            && By13(p, g, t0) == p(p(t3, t2), t0)
            && By14(p, g, t0) == p(p(t3, t2), t1)
  {
    Double3(p, z, g, x);
    Double3(p, z, g, g(x));
    Double3(p, z, g, g(g(x)));
    Expand11(p, z, g, By3(p, g, x));
    Expand13(p, z, g, By3(p, g, x));
    Expand14(p, z, g, By3(p, g, x));
  }

  /** 14 * 2 + 11 + 13 + 9 * 3 is 1. */
  lemma Sum0<T(!new)>(p: (T, T) -> T, z: T, g: T -> T, x: T)
    requires Addition(p, z) && Additive(p, z, g)
    ensures p(p(By14(p, g, g(x)), By11(p, g, x)), p(By13(p, g, x), By9(p, g, By3(p, g, x)))) == x
  {
    var x1 := g(x);
    var x2 := g(x1);
    var x3 := g(x2);
    var t0, t2, t3 := By3(p, g, x), By3(p, g, x2), By3(p, g, x3);
    Expand14(p, z, g, x1);
    Expand11(p, z, g, x);
    Expand13(p, z, g, x);
    Triples(p, z, g, x);
    assert Swaps(p, p(t2, x), p(t3, t0)) && Exch(p, p(t3, x2), p(x3, t0), p(t3, t0), p(t2, x));
    DropShared(p, z, x2, t0, t3);
    assert Exch(p, x3, t0, t2, x);
    Drop(p, z, x3, x2);
    Drop(p, z, x, x1);
    DropShared(p, z, t0, x1, x2);
    Drop(p, z, x1, x);
  }

  /** 9 * 2 + 14 + 11 + 13 * 3 is 0. */
  lemma Sum1<T(!new)>(p: (T, T) -> T, z: T, g: T -> T, x: T)
    requires Addition(p, z) && Additive(p, z, g)
    ensures p(p(By9(p, g, g(x)), By14(p, g, x)), p(By11(p, g, x), By13(p, g, By3(p, g, x)))) == z
  {
    var x1 := g(x);
    var x2 := g(x1);
    var x3 := g(x2);
    var x4 := g(x3);
    var t0, t2, t3 := By3(p, g, x), By3(p, g, x2), By3(p, g, x3);
    Expand14(p, z, g, x);
    Expand11(p, z, g, x);
    Triples(p, z, g, x);
    DropShared(p, z, x4, t2, x1);
    DropShared(p, z, x3, p(t3, t2), t0);
    Assoc(p, z, x3, t3, t2);
    Drop(p, z, x3, x4);
    assert Cancels(p, z, p(x4, t2));
  }

  /** 13 * 2 + 9 + 14 + 11 * 3 is 0. */
  lemma Sum2<T(!new)>(p: (T, T) -> T, z: T, g: T -> T, x: T)
    requires Addition(p, z) && Additive(p, z, g)
    ensures p(p(By13(p, g, g(x)), By9(p, g, x)), p(By14(p, g, x), By11(p, g, By3(p, g, x)))) == z
  {
    var x1 := g(x);
    var x2 := g(x1);
    var x3 := g(x2);
    var x4 := g(x3);
    var t0, t1, t2, t3 := By3(p, g, x), By3(p, g, x1), By3(p, g, x2), By3(p, g, x3);
    Expand13(p, z, g, x1);
    Expand14(p, z, g, x);
    Triples(p, z, g, x);
    assert Exch(p, p(t3, x1), p(x3, x), p(t2, x1), p(t3, p(t1, t0)));
    DropShared(p, z, t3, t2, x1);
    assert Exch(p, x3, x, t3, p(t1, t0)) && Swaps(p, t1, t0);
    Drop(p, z, x3, x4);
    Assoc(p, z, x, t0, t1);
    Drop(p, z, x, x1);
    Drop(p, z, x1, x2);
    assert Swaps(p, x4, x3);
    DropShared(p, z, x4, x2, x3);
    assert Swaps(p, x3, x2) && Cancels(p, z, p(x4, x2));
  }

  /** 11 * 2 + 13 + 9 + 14 * 3 is 0. */
  lemma Sum3<T(!new)>(p: (T, T) -> T, z: T, g: T -> T, x: T)
    requires Addition(p, z) && Additive(p, z, g)
    ensures p(p(By11(p, g, g(x)), By13(p, g, x)), p(By9(p, g, x), By14(p, g, By3(p, g, x)))) == z
  {
    var x1 := g(x);
    var x2 := g(x1);
    var x3 := g(x2);
    var x4 := g(x3);
    var t1, t2, t3 := By3(p, g, x1), By3(p, g, x2), By3(p, g, x3);
    Expand11(p, z, g, x1);
    Expand13(p, z, g, x);
    Triples(p, z, g, x);
    var u := p(t3, t2);
    assert Swaps(p, p(x3, x), p(u, t1)) && Exch(p, p(x4, t1), p(t2, x), p(u, t1), p(x3, x));
    DropShared(p, z, x4, u, t1);
    DropShared(p, z, t2, x3, x);
    Assoc(p, z, x4, t3, t2);
    Drop(p, z, x4, x3);
    assert Swaps(p, x3, t2) && Cancels(p, z, p(x3, t2));
  }

  // ----- rows

  function Row<T>(p: (T, T) -> T, f0: T -> T, f1: T -> T, f2: T -> T, f3: T -> T, s: Col<T>): T {
    p(p(f0(s.a), f1(s.b)), p(f2(s.c), f3(s.d)))
  }

  function Sum<T>(p: (T, T) -> T, s: Col<T>, t: Col<T>): Col<T> {
    Col(p(s.a, t.a), p(s.b, t.b), p(s.c, t.c), p(s.d, t.d))
  }

  lemma RowAdds<T(!new)>(p: (T, T) -> T, z: T, f0: T -> T, f1: T -> T, f2: T -> T, f3: T -> T, s: Col<T>, t: Col<T>)
    requires Addition(p, z) && Additive(p, z, f0) && Additive(p, z, f1) && Additive(p, z, f2) && Additive(p, z, f3)
    ensures Row(p, f0, f1, f2, f3, Sum(p, s, t)) == p(Row(p, f0, f1, f2, f3, s), Row(p, f0, f1, f2, f3, t))
  {
    assert Splits(p, f0, s.a, t.a) && Splits(p, f1, s.b, t.b) && Splits(p, f2, s.c, t.c) && Splits(p, f3, s.d, t.d);
    assert Exch(p, f0(s.a), f0(t.a), f1(s.b), f1(t.b));
    assert Exch(p, f2(s.c), f2(t.c), f3(s.d), f3(t.d));
    assert Exch(p, p(f0(s.a), f1(s.b)), p(f0(t.a), f1(t.b)), p(f2(s.c), f3(s.d)), p(f2(t.c), f3(t.d)));
  }

  // ----- the matrix with a given first row

  function Apply<T>(p: (T, T) -> T, f0: T -> T, f1: T -> T, f2: T -> T, f3: T -> T, s: Col<T>): Col<T> {
    Col(Row(p, f0, f1, f2, f3, s), Row(p, f3, f0, f1, f2, s), Row(p, f2, f3, f0, f1, s), Row(p, f1, f2, f3, f0, s))
  }

  lemma ApplyAdds<T(!new)>(p: (T, T) -> T, z: T, f0: T -> T, f1: T -> T, f2: T -> T, f3: T -> T, s: Col<T>, t: Col<T>)
    requires Addition(p, z) && Additive(p, z, f0) && Additive(p, z, f1) && Additive(p, z, f2) && Additive(p, z, f3)
    ensures Apply(p, f0, f1, f2, f3, Sum(p, s, t))
         == Sum(p, Apply(p, f0, f1, f2, f3, s), Apply(p, f0, f1, f2, f3, t))
  {
    RowAdds(p, z, f0, f1, f2, f3, s, t);
    RowAdds(p, z, f3, f0, f1, f2, s, t);
    RowAdds(p, z, f2, f3, f0, f1, s, t);
    RowAdds(p, z, f1, f2, f3, f0, s, t);
  }

  function Turn<T>(s: Col<T>): Col<T> {
    Col(s.d, s.a, s.b, s.c)
  }

  lemma RowTurns<T(!new)>(p: (T, T) -> T, z: T, f0: T -> T, f1: T -> T, f2: T -> T, f3: T -> T, s: Col<T>)
    requires Addition(p, z)
    ensures Row(p, f0, f1, f2, f3, Turn(s)) == Row(p, f1, f2, f3, f0, s)
  {
    var w, x, y, v := f0(s.d), f1(s.a), f2(s.b), f3(s.c);
    assert Swaps(p, w, x) && Exch(p, x, w, y, v) && Swaps(p, w, v);
  }

  /** Turning a column turns the product. */
  lemma ApplyTurns<T(!new)>(p: (T, T) -> T, z: T, f0: T -> T, f1: T -> T, f2: T -> T, f3: T -> T, s: Col<T>)
    requires Addition(p, z)
    ensures Apply(p, f0, f1, f2, f3, Turn(s)) == Turn(Apply(p, f0, f1, f2, f3, s))
  {
    RowTurns(p, z, f0, f1, f2, f3, s);
    RowTurns(p, z, f3, f0, f1, f2, s);
    RowTurns(p, z, f2, f3, f0, f1, s);
    RowTurns(p, z, f1, f2, f3, f0, s);
  }

  // ----- inverses

  /** The two matrices, and what makes the second the inverse of the first on one entry. */
  datatype Pair<!T(!new)> = Pair(h0: T -> T, h1: T -> T, h2: T -> T, h3: T -> T, f0: T -> T, f1: T -> T, f2: T -> T, f3: T -> T)
  {
    function Forth(p: (T, T) -> T, s: Col<T>): Col<T> {
      Apply(p, h0, h1, h2, h3, s)
    }

    function Back(p: (T, T) -> T, s: Col<T>): Col<T> {
      Apply(p, f0, f1, f2, f3, s)
    }

    ghost predicate Linear(p: (T, T) -> T, z: T) {
      && Additive(p, z, h0) && Additive(p, z, h1) && Additive(p, z, h2) && Additive(p, z, h3)
      && Additive(p, z, f0) && Additive(p, z, f1) && Additive(p, z, f2) && Additive(p, z, f3)
    }

    /** The first column of the product of the matrices, on one entry: x, z, z and z. */
    ghost predicate Unit0(p: (T, T) -> T, z: T, x: T) {
      p(p(f0(h0(x)), f1(h3(x))), p(f2(h2(x)), f3(h1(x)))) == x
    }

    ghost predicate Unit1(p: (T, T) -> T, z: T, x: T) {
      p(p(f3(h0(x)), f0(h3(x))), p(f1(h2(x)), f2(h1(x)))) == z
    }

    ghost predicate Unit2(p: (T, T) -> T, z: T, x: T) {
      p(p(f2(h0(x)), f3(h3(x))), p(f0(h2(x)), f1(h1(x)))) == z
    }

    ghost predicate Unit3(p: (T, T) -> T, z: T, x: T) {
      p(p(f1(h0(x)), f2(h3(x))), p(f3(h2(x)), f0(h1(x)))) == z
    }

    ghost predicate UnitSums(p: (T, T) -> T, z: T, x: T) {
      Unit0(p, z, x) && Unit1(p, z, x) && Unit2(p, z, x) && Unit3(p, z, x)
    }

    lemma UnitUndo(p: (T, T) -> T, z: T, x: T)
      requires Addition(p, z) && Linear(p, z) && UnitSums(p, z, x)
      ensures Back(p, Forth(p, Col(x, z, z, z))) == Col(x, z, z, z)
    {
      assert Neutral(p, z, z);
      assert Neutral(p, z, h0(x)) && Neutral(p, z, h1(x)) && Neutral(p, z, h2(x)) && Neutral(p, z, h3(x));
      assert Forth(p, Col(x, z, z, z)) == Col(h0(x), h3(x), h2(x), h1(x));
    }

    lemma TurnUndo(p: (T, T) -> T, z: T, s: Col<T>)
      requires Addition(p, z) && Back(p, Forth(p, s)) == s
      ensures Back(p, Forth(p, Turn(s))) == Turn(s)
    {
      ApplyTurns(p, z, h0, h1, h2, h3, s);
      ApplyTurns(p, z, f0, f1, f2, f3, Forth(p, s));
    }

    lemma SumUndo(p: (T, T) -> T, z: T, s: Col<T>, t: Col<T>)
      requires Addition(p, z) && Linear(p, z) && Back(p, Forth(p, s)) == s && Back(p, Forth(p, t)) == t
      ensures Back(p, Forth(p, Sum(p, s, t))) == Sum(p, s, t)
    {
      ApplyAdds(p, z, h0, h1, h2, h3, s, t);
      ApplyAdds(p, z, f0, f1, f2, f3, Forth(p, s), Forth(p, t));
    }

    /** Undoing one entry suffices: every column is a sum of turned unit columns. */
    lemma Undo(p: (T, T) -> T, z: T, s: Col<T>)
      requires Addition(p, z) && Linear(p, z)
      requires UnitSums(p, z, s.a) && UnitSums(p, z, s.b) && UnitSums(p, z, s.c) && UnitSums(p, z, s.d)
      ensures Back(p, Forth(p, s)) == s
    {
      UnitUndo(p, z, s.a);
      UnitUndo(p, z, s.b);
      TurnUndo(p, z, Col(s.b, z, z, z));
      UnitUndo(p, z, s.c);
      TurnUndo(p, z, Col(s.c, z, z, z));
      TurnUndo(p, z, Col(z, s.c, z, z));
      UnitUndo(p, z, s.d);
      TurnUndo(p, z, Col(s.d, z, z, z));
      TurnUndo(p, z, Col(z, s.d, z, z));
      TurnUndo(p, z, Col(z, z, s.d, z));
      SumUndo(p, z, Col(s.a, z, z, z), Col(z, s.b, z, z));
      SumUndo(p, z, Col(z, z, s.c, z), Col(z, z, z, s.d));
      assert Neutral(p, z, s.a) && Neutral(p, z, s.b) && Neutral(p, z, s.c) && Neutral(p, z, s.d) && Neutral(p, z, z);
      assert Sum(p, Col(s.a, z, z, z), Col(z, s.b, z, z)) == Col(s.a, s.b, z, z);
      assert Sum(p, Col(z, z, s.c, z), Col(z, z, z, s.d)) == Col(z, z, s.c, s.d);
      SumUndo(p, z, Col(s.a, s.b, z, z), Col(z, z, s.c, s.d));
      assert Sum(p, Col(s.a, s.b, z, z), Col(z, z, s.c, s.d)) == s;
    }
  }
}
