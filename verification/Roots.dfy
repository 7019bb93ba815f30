/** Integer square roots: what truncating a real square root leaves. */
module Roots {
  /** The largest `m` with `m * m <= n`. */
  function FloorRoot(n: nat): (m: nat)
    ensures m * m <= n < (m + 1) * (m + 1)
  {
    if n == 0 then 0
    else
      var r := FloorRoot(n - 1);
      if (r + 1) * (r + 1) <= n then NextSquare(r); r + 1 else r
  }

  lemma NextSquare(r: nat)
    ensures (r + 2) * (r + 2) == (r + 1) * (r + 1) + 2 * r + 3
  {
  }

  lemma SquareOrder(a: int, b: int)
    requires 0 <= a && 0 <= b
    ensures a <= b <==> a * a <= b * b
    ensures a < b <==> a * a < b * b
  {
    if a <= b {
      assert a * a <= a * b <= b * b;
    } else {
      assert b * b <= b * a && b * a < a * a by { assert (a - b) * a > 0; }
    }
    if a < b { assert (b - a) * b > 0; }
  }

  lemma RootUnique(n: nat, m: nat)
    requires m * m <= n < (m + 1) * (m + 1)
    ensures FloorRoot(n) == m
  {
    SquareOrder(m, FloorRoot(n) + 1);
    SquareOrder(FloorRoot(n), m + 1);
  }

  lemma RootMonotone(a: nat, b: nat)
    requires a <= b
    ensures FloorRoot(a) <= FloorRoot(b)
  {
    SquareOrder(FloorRoot(a), FloorRoot(b) + 1);
  }

  lemma RealProductPositive(a: real, b: real)
    requires 0.0 < a && 0.0 < b
    ensures 0.0 < a * b
  {
  }

  lemma RealSquareLess(a: real, b: real)
    requires 0.0 <= a < b
    ensures a * a < b * b
  {
    var d := b - a;
    assert 0.0 < d && 0.0 < b + a;
    RealProductPositive(d, b + a);
    assert d * (b + a) == b * b - a * a;
  }

  lemma RealSquareOrder(a: real, b: real)
    requires 0.0 <= a && 0.0 <= b
    ensures a <= b <==> a * a <= b * b
    ensures a < b <==> a * a < b * b
  {
    if a < b { RealSquareLess(a, b); }
    if b < a { RealSquareLess(b, a); }
  }

  /** `FloorRoot` is the integer part of the real square root, of `n` and of anything up to `n + 1`. */
  lemma FloorRootIsFloor(x: real, root: real)
    requires 0.0 <= x && 0.0 <= root && root * root == x
    ensures x.Floor >= 0 && root.Floor == FloorRoot(x.Floor)
  {
    var m := root.Floor;
    var r := m as real;
    assert 0 <= m && r <= root < r + 1.0;
    RealSquareOrder(r, root);
    RealSquareOrder(root, r + 1.0);
    assert r * r == (m * m) as real;
    assert (r + 1.0) * (r + 1.0) == ((m + 1) * (m + 1)) as real;
    RootUnique(x.Floor, m);
  }
}
