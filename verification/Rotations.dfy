/** Orthonormal matrices: what `x @ p` and `r @ p.T` do to vectors of dimension `dim`. */
module Rotations {
  import opened Collections
  import opened Sums

  type Vector = map<int, real>

  /** Row number -> row. */
  type Matrix = map<int, Vector>

  function Row(p: Matrix, i: int): Vector {
    if i in p then p[i] else map[]
  }

  function Column(p: Matrix, j: int, dim: nat): Vector {
    map i | i in UpTo(dim) :: Get(Row(p, i), j)
  }

  /** `y @ p`. */
  ghost function Rotate(p: Matrix, y: Vector, dim: nat): Vector {
    map j | j in UpTo(dim) :: Dot(y, Column(p, j, dim), UpTo(dim))
  }

  /** `r @ p.T`. */
  ghost function RotateBack(p: Matrix, r: Vector, dim: nat): Vector {
    map i | i in UpTo(dim) :: Dot(r, Row(p, i), UpTo(dim))
  }

  function Unit(i: int, dim: nat): Vector {
    map k | k in UpTo(dim) :: if k == i then 1.0 else 0.0
  }

  ghost function Norm2(x: Vector, dim: nat): real {
    Dot(x, x, UpTo(dim))
  }

  /** Rows and columns are orthonormal: p @ p.T and p.T @ p are both the identity. */
  ghost predicate Orthonormal(p: Matrix, dim: nat) {
    && (forall i, k :: i in UpTo(dim) && k in UpTo(dim) ==>
          Dot(Row(p, i), Row(p, k), UpTo(dim)) == if i == k then 1.0 else 0.0)
    && (forall j, l :: j in UpTo(dim) && l in UpTo(dim) ==>
          Dot(Column(p, j, dim), Column(p, l, dim), UpTo(dim)) == if j == l then 1.0 else 0.0)
  }

  /** The coordinates of `y` in `from`, spread over the columns. */
  ghost function Partial(p: Matrix, y: Vector, from: set<int>, dim: nat): Vector {
    map j | j in UpTo(dim) :: Dot(y, Column(p, j, dim), from)
  }

  /** Rotating back is the adjoint of rotating: the two summations may be exchanged. */
  lemma {:induction false} AdjointOn(p: Matrix, r: Vector, y: Vector, from: set<int>, dim: nat)
    requires from <= UpTo(dim)
    ensures Dot(RotateBack(p, r, dim), y, from) == Dot(r, Partial(p, y, from, dim), UpTo(dim))
    decreases from
  {
    hide Times, Column;
    if from == {} {
      NothingPartial(p, y, dim);
      DotCong(r, Partial(p, y, {}, dim), r, map[], UpTo(dim));
      DotSymmetric(r, map[], UpTo(dim));
      DotZero(r, UpTo(dim));
    } else {
      var i := Choose(from);
      AdjointOn(p, r, y, from - {i}, dim);
      DotPick(RotateBack(p, r, dim), y, from, i);
      PartialSplits(p, r, y, from, dim, i);
      TimesCommutes(Dot(r, Row(p, i), UpTo(dim)), Get(y, i));
    }
  }

  lemma NothingPartial(p: Matrix, y: Vector, dim: nat)
    ensures forall j :: Get(Partial(p, y, {}, dim), j) == 0.0
  {
  }

  lemma PartialSplits(p: Matrix, r: Vector, y: Vector, from: set<int>, dim: nat, i: int)
    requires i in from && from <= UpTo(dim)
    ensures Dot(r, Partial(p, y, from, dim), UpTo(dim))
         == Times(Get(y, i), Dot(r, Row(p, i), UpTo(dim))) + Dot(r, Partial(p, y, from - {i}, dim), UpTo(dim))
  {
    hide Times, Dot, Column;
    var whole, rest := Partial(p, y, from, dim), Partial(p, y, from - {i}, dim);
    forall j | j in UpTo(dim)
      ensures Get(whole, j) == Times(Get(y, i), Get(Row(p, i), j)) + Times(1.0, Get(rest, j))
    {
      DotPick(y, Column(p, j, dim), from, i);
      ColumnEntry(p, j, dim, i);
      TimesOne(Get(rest, j), 0.0);
    }
    DotLinear(Get(y, i), Row(p, i), 1.0, rest, whole, r, UpTo(dim));
    DotSymmetric(whole, r, UpTo(dim));
    DotSymmetric(Row(p, i), r, UpTo(dim));
    DotSymmetric(rest, r, UpTo(dim));
    TimesOne(Dot(rest, r, UpTo(dim)), 0.0);
  }

  lemma ColumnEntry(p: Matrix, j: int, dim: nat, i: int)
    requires i in UpTo(dim)
    ensures Get(Column(p, j, dim), i) == Get(Row(p, i), j)
  {
  }

  lemma Adjoint(p: Matrix, r: Vector, y: Vector, dim: nat)
    ensures Dot(RotateBack(p, r, dim), y, UpTo(dim)) == Dot(r, Rotate(p, y, dim), UpTo(dim))
  {
    hide Dot, Column;
    AdjointOn(p, r, y, UpTo(dim), dim);
    DotCong(r, Partial(p, y, UpTo(dim), dim), r, Rotate(p, y, dim), UpTo(dim));
  }

  lemma DotUnit(y: Vector, i: int, dim: nat)
    requires i in UpTo(dim)
    ensures Dot(y, Unit(i, dim), UpTo(dim)) == Get(y, i)
  {
    hide Times;
    DotPick(y, Unit(i, dim), UpTo(dim), i);
    TimesOne(Get(y, i), 0.0);
    forall k | k in UpTo(dim) - {i} ensures Get(Products(y, Unit(i, dim), UpTo(dim) - {i}), k) == 0.0 {
      TimesZero(Get(y, k));
    }
    SumZero(Products(y, Unit(i, dim), UpTo(dim) - {i}), UpTo(dim) - {i});
  }

  /** Rotating and rotating back gives the vector again. */
  lemma BackAgain(p: Matrix, y: Vector, dim: nat, i: int)
    requires Orthonormal(p, dim) && i in UpTo(dim)
    ensures Get(RotateBack(p, Rotate(p, y, dim), dim), i) == Get(y, i)
  {
    hide Dot, Column, Rotate;
    var all := UpTo(dim);
    assert Get(RotateBack(p, Rotate(p, y, dim), dim), i) == Dot(Rotate(p, y, dim), Row(p, i), all);
    DotSymmetric(Rotate(p, y, dim), Row(p, i), all);
    Adjoint(p, Row(p, i), y, dim);
    assert forall k :: k in all ==> Get(RotateBack(p, Row(p, i), dim), k) == Get(Unit(i, dim), k);
    DotCong(RotateBack(p, Row(p, i), dim), y, Unit(i, dim), y, all);
    DotSymmetric(Unit(i, dim), y, all);
    DotUnit(y, i, dim);
  }

  lemma ForthAgain(p: Matrix, r: Vector, dim: nat, j: int)
    requires Orthonormal(p, dim) && j in UpTo(dim)
    ensures Get(Rotate(p, RotateBack(p, r, dim), dim), j) == Get(r, j)
  {
    hide Dot, Column, RotateBack;
    var all := UpTo(dim);
    assert Get(Rotate(p, RotateBack(p, r, dim), dim), j) == Dot(RotateBack(p, r, dim), Column(p, j, dim), all);
    Adjoint(p, r, Column(p, j, dim), dim);
    assert forall l :: l in all ==> Get(Rotate(p, Column(p, j, dim), dim), l) == Get(Unit(j, dim), l);
    DotCong(r, Rotate(p, Column(p, j, dim), dim), r, Unit(j, dim), all);
    DotUnit(r, j, dim);
  }

  /** Rotating back keeps the squared norm. */
  lemma NormKept(p: Matrix, r: Vector, dim: nat)
    requires Orthonormal(p, dim)
    ensures Norm2(RotateBack(p, r, dim), dim) == Norm2(r, dim)
  {
    hide Dot, Column, Rotate, RotateBack, Orthonormal;
    var back := RotateBack(p, r, dim);
    Adjoint(p, r, back, dim);
    forall j | j in UpTo(dim) ensures Get(Rotate(p, back, dim), j) == Get(r, j) {
      ForthAgain(p, r, dim, j);
    }
    DotCong(r, Rotate(p, back, dim), r, r, UpTo(dim));
  }
}
