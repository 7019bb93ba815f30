/**
 The adaptive limit as a value: what one window's readings do to it, in exact arithmetic. Where the code
 takes a square root and truncates, the integer part is written with FloorRoot; the lemmas about `root`
 show that this is the truncation of the real expression.
 */
module VegasModel {
  import opened Arithmetic
  import opened Roots

  const MIN_LIMIT := 8
  const MAX_LIMIT := 2048
  const MIN_WINDOW := 500_000_000
  const MAX_WINDOW := 2_000_000_000

  datatype Control = Control(limit: int, updateTime: int, minRTT: int, probes: int)

  /** What an update reads: the window's round trip time, when it ended, the most requests in flight and
      whether any was dropped, and the random number drawn if the probe counter is reset. The two readings
      of the in-flight maximum differ when late entries arrive in between. */
  datatype Reading = Reading(lastRTT: int, end: int, flightForMin: int, drop: bool, flightForLimit: int, random: int)

  predicate InRange(limit: int) {
    MIN_LIMIT <= limit <= MAX_LIMIT
  }

  function Clamped(x: int, lo: int, hi: int): int {
    if x < lo then lo else if x > hi then hi else x
  }

  function NewUpdateTime(end: int, lastRTT: int): int {
    end + Clamped(lastRTT * 5, MIN_WINDOW, MAX_WINDOW)
  }

  // ---- The minimum round trip time ----------------------------------------------------------------

  predicate Resets(v: Control, r: Reading) {
    v.probes - 1 <= 0 && (r.flightForMin * 2 < v.limit || r.flightForMin <= MIN_LIMIT)
  }

  function WithMin(v: Control, r: Reading): Control {
    v.(probes := if Resets(v, r) then 3 * v.limit + r.random else v.probes - 1,
       minRTT := if Resets(v, r) || v.minRTT == 0 || r.lastRTT < v.minRTT then r.lastRTT else v.minRTT)
  }

  // ---- The limit ------------------------------------------------------------------------------------

  /** The estimated queue, `limit * (1 - minRTT / lastRTT)`, is less than `k` times the threshold
      `sqrt(limit) / 2`, for positive `k`: both sides are squared when they are not negative. */
  predicate QueueBelow(limit: int, minRTT: int, lastRTT: int, k: int) {
    lastRTT < minRTT || 4 * limit * (lastRTT - minRTT) * (lastRTT - minRTT) < k * k * lastRTT * lastRTT
  }

  predicate QueueAbove(limit: int, minRTT: int, lastRTT: int, k: int) {
    minRTT <= lastRTT && 4 * limit * (lastRTT - minRTT) * (lastRTT - minRTT) > k * k * lastRTT * lastRTT
  }

  /** How many thresholds the limit moves, by the size of the queue. */
  function Thresholds(limit: int, minRTT: int, lastRTT: int): (c: int)
    ensures c in {-1, 0, 1, 3, 6}
  {
    if QueueBelow(limit, minRTT, lastRTT, 1) then 6
    else if QueueBelow(limit, minRTT, lastRTT, 2) then 3
    else if QueueBelow(limit, minRTT, lastRTT, 3) then 1
    else if QueueAbove(limit, minRTT, lastRTT, 6) then -1
    else 0
  }

  /** The least `m` with `sqrt(limit) / 2 <= m`. */
  function CeilHalfRoot(limit: nat): (m: nat)
    ensures limit <= 4 * m * m
    ensures 0 < m ==> 4 * (m - 1) * (m - 1) < limit
  {
    var r := FloorRoot(limit / 4);
    HalfRoot(limit, r);
    if 4 * r * r == limit then r else r + 1
  }

  lemma HalfRoot(limit: nat, r: nat)
    requires r * r <= limit / 4 < (r + 1) * (r + 1)
    ensures 4 * r * r <= limit < 4 * (r + 1) * (r + 1)
    ensures 0 < r ==> 4 * (r - 1) * (r - 1) < 4 * r * r
  {
    assert 4 * (limit / 4) <= limit < 4 * (limit / 4) + 4;
    if 0 < r { SquareOrder(r - 1, r); }
  }

  /** `storeLimit(limit + c * threshold)`. */
  function Moved(limit: nat, c: int): int
    requires c == -1 || 0 <= c
  {
    Clamped(if c == -1 then limit - CeilHalfRoot(limit) else limit + FloorRoot(c * c * limit / 4), MIN_LIMIT, MAX_LIMIT)
  }

  function NewLimit(v: Control, r: Reading): int
    requires 0 <= v.limit
  {
    if r.drop then Moved(v.limit, -1)
    else if r.flightForLimit * 2 < v.limit then v.limit
    else
      var c := Thresholds(v.limit, v.minRTT, r.lastRTT);
      if c == 0 then v.limit else Moved(v.limit, c)
  }

  /** One update. Only windows with a positive round trip time get this far. */
  function Update(v: Control, r: Reading): Control
    requires 0 <= v.limit
  {
    var m := WithMin(v.(updateTime := NewUpdateTime(r.end, r.lastRTT)), r);
    m.(limit := NewLimit(m, r))
  }

  // ---- The integers are the truncated reals ---------------------------------------------------------

  function RealClamped(x: real, lo: real, hi: real): real {
    var y := if x < hi then x else hi;
    if y > lo then y else lo
  }

  lemma RealProduct(a: int, b: int)
    ensures a as real * b as real == (a * b) as real
  {
  }

  lemma QuarterFloor(n: nat)
    ensures (n as real / 4.0).Floor == n / 4
  {
  }

  lemma ScaledSquare(c: real, root: real, q: real)
    requires root * root == q
    ensures (c * (root / 2.0)) * (c * (root / 2.0)) == c * c * q / 4.0
  {
    assert (c * (root / 2.0)) * (c * (root / 2.0)) == c * c * (root * root) / 4.0;
  }

  lemma NonNegativeProduct(a: real, b: real)
    requires 0.0 <= a && 0.0 <= b
    ensures 0.0 <= a * b
  {
  }

  lemma RaiseIsFloor(limit: nat, c: nat, root: real)
    requires 0.0 <= root && root * root == limit as real
    ensures (c as real * (root / 2.0)).Floor == FloorRoot(c * c * limit / 4)
  {
    RealProduct(c, c);
    RealProduct(c * c, limit);
    ScaledSquare(c as real, root, limit as real);
    QuarterFloor(c * c * limit);
    NonNegativeProduct(c as real, root / 2.0);
    FloorRootIsFloor((c * c * limit) as real / 4.0, c as real * (root / 2.0));
  }

  lemma CompareToRoot(m: nat, limit: nat, root: real)
    requires 0.0 <= root && root * root == limit as real
    ensures limit <= 4 * m * m ==> root <= 2.0 * m as real
    ensures 4 * m * m < limit ==> 2.0 * m as real < root
  {
    TwiceSquared(m, limit);
    RealSquareOrder(root, 2.0 * m as real);
    RealSquareOrder(2.0 * m as real, root);
  }

  lemma CeilHalfRootIsCeiling(limit: nat, root: real)
    requires 0.0 <= root && root * root == limit as real
    ensures root / 2.0 <= CeilHalfRoot(limit) as real < root / 2.0 + 1.0
  {
    var m := CeilHalfRoot(limit);
    CompareToRoot(m, limit, root);
    if 0 < m { CompareToRoot(m - 1, limit, root); }
    BetweenHalves(m, root);
  }

  lemma BetweenHalves(m: nat, root: real)
    requires 0.0 <= root <= 2.0 * m as real && (0 < m ==> 2.0 * (m - 1) as real < root)
    ensures root / 2.0 <= m as real < root / 2.0 + 1.0
  {
  }

  lemma TwiceSquared(m: nat, limit: nat)
    ensures limit <= 4 * m * m <==> limit as real <= (2.0 * m as real) * (2.0 * m as real)
    ensures 4 * m * m < limit <==> (2.0 * m as real) * (2.0 * m as real) < limit as real
  {
    RealProduct(2 * m, 2 * m);
    assert (2 * m) * (2 * m) == 4 * m * m;
    assert (2 * m) as real == 2.0 * m as real;
  }

  lemma FloorOfDifference(n: int, m: int, h: real)
    requires h <= m as real < h + 1.0
    ensures (n as real - h).Floor == n - m
  {
  }

  lemma FloorOfSum(n: int, y: real)
    ensures (n as real + y).Floor == n + y.Floor
  {
  }

  lemma ClampedFloor(x: real, lo: int, hi: int)
    requires lo <= hi
    ensures RealClamped(x, lo as real, hi as real).Floor == Clamped(x.Floor, lo, hi)
  {
  }

  /** The stored limit is the integer part of the clamped real expression. */
  lemma MovedIsTruncation(limit: nat, c: int, root: real)
    requires 0.0 <= root && root * root == limit as real && (c == -1 || 0 <= c)
    ensures Moved(limit, c) == RealClamped(limit as real + c as real * (root / 2.0), 8.0, 2048.0).Floor
  {
    hide FloorRoot, CeilHalfRoot;
    ClampedFloor(limit as real + c as real * (root / 2.0), MIN_LIMIT, MAX_LIMIT);
    if c == -1 {
      assert limit as real + c as real * (root / 2.0) == limit as real - root / 2.0;
      CeilHalfRootIsCeiling(limit, root);
      FloorOfDifference(limit, CeilHalfRoot(limit), root / 2.0);
    } else {
      RaiseIsFloor(limit, c, root);
      FloorOfSum(limit, c as real * (root / 2.0));
    }
  }

  lemma CrossMultiply(x: real, y: real, d: real)
    requires 0.0 < d
    ensures x / d < y / 2.0 <==> 2.0 * x < y * d
    ensures x / d > y / 2.0 <==> 2.0 * x > y * d
  {
    var q := x / d;
    assert x == q * d;
    if q < y / 2.0 {
      RealProductOrder(q, y / 2.0, d);
    } else if y / 2.0 < q {
      RealProductOrder(y / 2.0, q, d);
    }
    assert (y / 2.0) * d == y * d / 2.0;
  }

  lemma RealProductOrder(a: real, b: real, d: real)
    requires 0.0 < d && a < b
    ensures a * d < b * d
  {
    RealProductPositive(b - a, d);
    assert (b - a) * d == b * d - a * d;
  }

  lemma OverCommon(l: real, m: real, d: real)
    requires 0.0 < d
    ensures l * (1.0 - m / d) == l * (d - m) / d
  {
    var q := m / d;
    assert m == q * d;
    assert l * (d - m) == (l * (1.0 - q)) * d;
  }

  /** Comparing `2 l a` with `k root d` by their squares, less a common factor `l`. */
  lemma CompareSquares(l: real, a: real, k: real, root: real, d: real)
    requires 0.0 < l && 0.0 <= a && 0.0 < k && 0.0 < d && 0.0 <= root && root * root == l
    ensures 2.0 * (l * a) < k * root * d <==> 4.0 * l * a * a < k * k * d * d
    ensures 2.0 * (l * a) > k * root * d <==> 4.0 * l * a * a > k * k * d * d
  {
    var x, y, u, w := 2.0 * (l * a), k * root * d, 4.0 * l * a * a, k * k * d * d;
    NonNegativeProduct(l, a);
    NonNegativeProduct(k, root);
    NonNegativeProduct(k * root, d);
    RealSquareOrder(x, y);
    RealSquareOrder(y, x);
    assert x * x == u * l;
    assert y * y == k * k * (root * root) * (d * d);
    assert y * y == w * l;
    if u < w { RealProductOrder(u, w, l); } else if w < u { RealProductOrder(w, u, l); }
  }

  lemma QueueInReals(limit: int, a: int, k: int, d: int)
    ensures 4.0 * limit as real * a as real * a as real == (4 * limit * a * a) as real
    ensures k as real * k as real * d as real * d as real == (k * k * d * d) as real
  {
    RealProduct(4, limit);
    RealProduct(4 * limit, a);
    RealProduct(4 * limit * a, a);
    RealProduct(k, k);
    RealProduct(k * k, d);
    RealProduct(k * k * d, d);
  }

  /** The comparisons of squares decide the real comparisons of the queue with the thresholds. */
  lemma QueueComparedInReals(limit: nat, minRTT: int, lastRTT: int, k: int, root: real)
    requires 0 < limit && 0 < minRTT && 0 < lastRTT && 0 < k && 0.0 <= root && root * root == limit as real
    ensures QueueBelow(limit, minRTT, lastRTT, k) <==>
            limit as real * (1.0 - minRTT as real / lastRTT as real) < k as real * (root / 2.0)
    ensures QueueAbove(limit, minRTT, lastRTT, k) <==>
            limit as real * (1.0 - minRTT as real / lastRTT as real) > k as real * (root / 2.0)
  {
    var l, m, d, kr := limit as real, minRTT as real, lastRTT as real, k as real;
    QueueIsReal(limit, minRTT, lastRTT, k, root);
    OverCommon(l, m, d);
    CrossMultiply(l * (d - m), kr * root, d);
    assert kr * (root / 2.0) == kr * root / 2.0;
  }

  lemma QueueIsReal(limit: nat, minRTT: int, lastRTT: int, k: int, root: real)
    requires 0 < limit && 0 < minRTT && 0 < lastRTT && 0 < k && 0.0 <= root && root * root == limit as real
    ensures QueueBelow(limit, minRTT, lastRTT, k) <==>
            2.0 * (limit as real * (lastRTT as real - minRTT as real)) < k as real * root * lastRTT as real
    ensures QueueAbove(limit, minRTT, lastRTT, k) <==>
            2.0 * (limit as real * (lastRTT as real - minRTT as real)) > k as real * root * lastRTT as real
  {
    var l, d, kr := limit as real, lastRTT as real, k as real;
    var a := lastRTT - minRTT;
    assert a as real == lastRTT as real - minRTT as real;
    if lastRTT < minRTT {
      NonNegativeProduct(kr, root);
      NonNegativeProduct(kr * root, d);
      RealProductOrder(a as real, 0.0, l);
    } else {
      QueueInReals(limit, a, k, lastRTT);
      CompareSquares(l, a as real, kr, root, d);
    }
  }

  // ---- The new limit in real numbers ----------------------------------------------------------------

  /** What `storeLimit` stores. */
  function Stored(x: real): (limit: int)
    ensures x <= 8.0 ==> limit == 8
    ensures x >= 2048.0 ==> limit == 2048
    ensures 8.0 <= x <= 2048.0 ==> limit as real <= x < limit as real + 1.0
  {
    RealClamped(x, 8.0, 2048.0).Floor
  }

  /** `limit * (1 - minRTT / lastRTT)`. */
  ghost function EstimatedQueue(limit: int, minRTT: int, lastRTT: int): real
    requires 0 < lastRTT
  {
    limit as real * (1.0 - minRTT as real / lastRTT as real)
  }

  /** The law for the new limit `n`: `q` is the estimated queue, `t` the threshold, and the window is saturated
      if at least half the limit was in flight. */
  ghost predicate FollowsLaw(n: int, limit: int, drop: bool, flight: int, q: real, t: real) {
    var l := limit as real;
    && (drop ==> n == Stored(l - t))
    && (!drop && flight * 2 < limit ==> n == limit)
    && (!drop && limit <= flight * 2 ==>
          && (q < t ==> n == Stored(l + 6.0 * t))
          && (t <= q < 2.0 * t ==> n == Stored(l + 3.0 * t))
          && (2.0 * t <= q < 3.0 * t ==> n == Stored(l + t))
          && (3.0 * t <= q <= 6.0 * t ==> n == limit)
          && (q > 6.0 * t ==> n == Stored(l - t)))
  }

  lemma QueueCases(limit: nat, minRTT: int, lastRTT: int, root: real)
    requires 0 < limit && 0 < minRTT && 0 < lastRTT && 0.0 <= root && root * root == limit as real
    ensures var q, t := EstimatedQueue(limit, minRTT, lastRTT), root / 2.0;
            && (QueueBelow(limit, minRTT, lastRTT, 1) <==> q < t)
            && (QueueBelow(limit, minRTT, lastRTT, 2) <==> q < 2.0 * t)
            && (QueueBelow(limit, minRTT, lastRTT, 3) <==> q < 3.0 * t)
            && (QueueAbove(limit, minRTT, lastRTT, 6) <==> q > 6.0 * t)
  {
    hide QueueBelow, QueueAbove;
    QueueComparedInReals(limit, minRTT, lastRTT, 1, root);
    QueueComparedInReals(limit, minRTT, lastRTT, 2, root);
    QueueComparedInReals(limit, minRTT, lastRTT, 3, root);
    QueueComparedInReals(limit, minRTT, lastRTT, 6, root);
  }

  lemma LawByCases(v: Control, r: Reading, q: real, t: real)
    requires 0 < v.limit && 0.0 <= t
    requires QueueBelow(v.limit, v.minRTT, r.lastRTT, 1) <==> q < t
    requires QueueBelow(v.limit, v.minRTT, r.lastRTT, 2) <==> q < 2.0 * t
    requires QueueBelow(v.limit, v.minRTT, r.lastRTT, 3) <==> q < 3.0 * t
    requires QueueAbove(v.limit, v.minRTT, r.lastRTT, 6) <==> q > 6.0 * t
    requires Moved(v.limit, -1) == Stored(v.limit as real - t) && Moved(v.limit, 1) == Stored(v.limit as real + t)
    requires Moved(v.limit, 3) == Stored(v.limit as real + 3.0 * t)
    requires Moved(v.limit, 6) == Stored(v.limit as real + 6.0 * t)
    ensures FollowsLaw(NewLimit(v, r), v.limit, r.drop, r.flightForLimit, q, t)
  {
    hide Moved, QueueBelow, QueueAbove, Stored;
  }

  /** The new limit follows the law in exact real arithmetic. */
  lemma NewLimitInReals(v: Control, r: Reading, root: real)
    requires 0 < v.limit && 0 < v.minRTT && 0 < r.lastRTT && 0.0 <= root && root * root == v.limit as real
    ensures FollowsLaw(NewLimit(v, r), v.limit, r.drop, r.flightForLimit,
                       EstimatedQueue(v.limit, v.minRTT, r.lastRTT), root / 2.0)
  {
    hide Moved, QueueBelow, QueueAbove, Stored, EstimatedQueue, FollowsLaw, NewLimit;
    MovesInReals(v.limit, root);
    QueueCases(v.limit, v.minRTT, r.lastRTT, root);
    LawByCases(v, r, EstimatedQueue(v.limit, v.minRTT, r.lastRTT), root / 2.0);
  }

  lemma MovesInReals(limit: nat, root: real)
    requires 0.0 <= root && root * root == limit as real
    ensures var l, t := limit as real, root / 2.0;
            && Moved(limit, -1) == Stored(l - t) && Moved(limit, 1) == Stored(l + t)
            && Moved(limit, 3) == Stored(l + 3.0 * t) && Moved(limit, 6) == Stored(l + 6.0 * t)
  {
    hide Moved, RealClamped;
    MovedIsTruncation(limit, -1, root);
    MovedIsTruncation(limit, 1, root);
    MovedIsTruncation(limit, 3, root);
    MovedIsTruncation(limit, 6, root);
  }

  /** An update at a glance: the window is five round trips, between 500 and 2000 milliseconds; the minimum is
      renewed by a reset and lowered by a shorter round trip; and the new limit is the one above, for the new
      minimum. */
  lemma UpdateInReals(v: Control, r: Reading, root: real)
    requires 0 < v.limit && 0 <= v.minRTT && 0 < r.lastRTT && 0.0 <= root && root * root == v.limit as real
    ensures var u := Update(v, r);
            var window := u.updateTime - r.end;
            && 500_000_000 <= window <= 2_000_000_000
            && (500_000_000 < window ==> window <= 5 * r.lastRTT)
            && (window < 2_000_000_000 ==> 5 * r.lastRTT <= window)
            && (Resets(v, r) ==> u.minRTT == r.lastRTT && u.probes == 3 * v.limit + r.random)
            && (!Resets(v, r) ==>
                  && u.probes == v.probes - 1
                  && (v.minRTT == 0 ==> u.minRTT == r.lastRTT)
                  && (v.minRTT != 0 ==>
                        u.minRTT <= v.minRTT && u.minRTT <= r.lastRTT && u.minRTT in {v.minRTT, r.lastRTT}))
            && 0 < u.minRTT
            && FollowsLaw(u.limit, v.limit, r.drop, r.flightForLimit,
                          EstimatedQueue(v.limit, u.minRTT, r.lastRTT), root / 2.0)
  {
    hide NewLimit, FollowsLaw, EstimatedQueue;
    var m := WithMin(v.(updateTime := NewUpdateTime(r.end, r.lastRTT)), r);
    NewLimitInReals(m, r, root);
  }

  // ---- What every update keeps ----------------------------------------------------------------------

  ghost predicate Inv(v: Control) {
    InRange(v.limit) && 0 <= v.minRTT
  }

  /** A reading an update can meet: its round trip time is positive, and the random number is below the
      bound it is drawn with, which is positive itself. That the window ended after the update time is
      checked by the callback before it takes the mutex, so of concurrent updates it need not hold; see
      `Timely`. */
  predicate Possible(v: Control, r: Reading) {
    0 < r.lastRTT && 0 <= r.random < 3 * v.limit
  }

  lemma LoweredBounds(limit: nat)
    requires InRange(limit)
    ensures InRange(Moved(limit, -1)) && 0 <= limit - Moved(limit, -1) <= CeilHalfRoot(limit)
    ensures CeilHalfRoot(limit) * CeilHalfRoot(limit) <= 9 * limit
  {
    HalfRootSmall(limit, CeilHalfRoot(limit));
  }

  lemma HalfRootSmall(limit: nat, m: nat)
    requires 8 <= limit && (0 < m ==> 4 * (m - 1) * (m - 1) < limit)
    ensures m * m <= 9 * limit
  {
    if 1 < m {
      SquareOrder(m, 2 * (m - 1));
      assert (2 * (m - 1)) * (2 * (m - 1)) == 4 * (m - 1) * (m - 1);
    } else {
      assert m * m <= 1;
    }
  }

  lemma RaisedBounds(limit: nat, c: nat)
    requires InRange(limit) && c <= 6
    ensures InRange(Moved(limit, c)) && 0 <= Moved(limit, c) - limit <= FloorRoot(c * c * limit / 4)
    ensures c * c * limit / 4 <= 9 * limit
  {
    SquareOrder(c, 6);
    MulOrder(c * c, 36, limit);
  }

  lemma MovedBounds(limit: nat, c: int)
    requires InRange(limit) && (c == -1 || 0 <= c <= 6)
    ensures InRange(Moved(limit, c))
    ensures (Moved(limit, c) - limit) * (Moved(limit, c) - limit) <= 9 * limit
    ensures if c == -1 then Moved(limit, c) <= limit else limit <= Moved(limit, c)
  {
    if c == -1 {
      LoweredBounds(limit);
      SquareOrder(limit - Moved(limit, c), CeilHalfRoot(limit));
      SquareOfNegation(Moved(limit, c) - limit);
    } else {
      RaisedBounds(limit, c);
      SquareOrder(Moved(limit, c) - limit, FloorRoot(c * c * limit / 4));
    }
  }

  lemma SquareOfNegation(d: int)
    ensures d * d == (-d) * (-d)
  {
  }

  /** Every update keeps the limit in range and moves it by at most three square roots; afterwards the
      minimum is positive and at most the window's own time, so the estimated queue is not negative and
      less than the limit. */
  lemma UpdateKeeps(v: Control, r: Reading)
    requires Inv(v) && Possible(v, r)
    ensures var u := Update(v, r);
            && Inv(u) && 0 < u.minRTT <= r.lastRTT
            && (u.limit - v.limit) * (u.limit - v.limit) <= 9 * v.limit
            && (r.drop ==> u.limit <= v.limit)
            && r.end + MIN_WINDOW <= u.updateTime <= r.end + MAX_WINDOW
  {
    hide Moved, Thresholds;
    MovedBounds(v.limit, -1);
    assert 0 * 0 <= 9 * v.limit;
    var c := Thresholds(v.limit, WithMin(v, r).minRTT, r.lastRTT);
    if c != 0 { MovedBounds(v.limit, c); }
  }

  // ---- Longer round trips never raise the limit -----------------------------------------------------

  lemma LaterShare(minRTT: int, a: int, b: int)
    requires 0 < minRTT <= a <= b
    ensures 0 <= (a - minRTT) * b <= (b - minRTT) * a
  {
    assert (b - minRTT) * a - (a - minRTT) * b == minRTT * (b - a);
  }

  lemma CancelSquares(u: int, w: int, n: int)
    requires 0 < n
    ensures u * n < w * n <==> u < w
  {
    if u < w { assert (w - u) * n > 0; } else { assert (u - w) * n >= 0; }
  }

  /** With `a <= b`, the share of the queue in a round trip of `a` compares with any bound as one of `b`
      does, or lower. */
  lemma SharesOrder(l: int, minRTT: int, a: int, b: int)
    requires 0 < l && 0 < minRTT <= a <= b
    ensures 4 * l * (a - minRTT) * (a - minRTT) * (b * b) <= 4 * l * (b - minRTT) * (b - minRTT) * (a * a)
  {
    var u, w := a - minRTT, b - minRTT;
    LaterShare(minRTT, a, b);
    NonNegative(u, b);
    SquareOrder(u * b, w * a);
    MulOrder((u * b) * (u * b), (w * a) * (w * a), 4 * l);
    ScaledSquares(l, u, b);
    ScaledSquares(l, w, a);
  }

  lemma NonNegative(a: int, b: int)
    requires 0 <= a && 0 <= b
    ensures 0 <= a * b
  {
  }

  lemma ScaledSquares(l: int, u: int, w: int)
    ensures 4 * l * u * u * (w * w) == (u * w) * (u * w) * (4 * l)
  {
  }

  lemma QueueGrows(l: int, minRTT: int, a: int, b: int, k: int)
    requires 0 < l && 0 < minRTT <= a <= b
    ensures QueueBelow(l, minRTT, b, k) ==> QueueBelow(l, minRTT, a, k)
    ensures QueueAbove(l, minRTT, a, k) ==> QueueAbove(l, minRTT, b, k)
  {
    SharesOrder(l, minRTT, a, b);
    var ua, ub := 4 * l * (a - minRTT) * (a - minRTT), 4 * l * (b - minRTT) * (b - minRTT);
    var wa, wb := k * k * a * a, k * k * b * b;
    assert wa * (b * b) == wb * (a * a);
    CancelSquares(ub, wb, a * a);
    CancelSquares(ua, wa, b * b);
    CancelSquares(wb, ub, a * a);
    CancelSquares(wa, ua, b * b);
  }

  lemma RaisesOrder(limit: nat, c: nat, d: nat)
    requires c <= d
    ensures c * c * limit / 4 <= d * d * limit / 4
    ensures 0 <= c * c * limit / 4 && FloorRoot(c * c * limit / 4) <= FloorRoot(d * d * limit / 4)
  {
    hide FloorRoot;
    SquareOrder(c, d);
    NonNegative(c, c);
    NonNegative(c * c, limit);
    MulOrder(c * c, d * d, limit);
    RootMonotone(c * c * limit / 4, d * d * limit / 4);
  }

  lemma MovesOrder(limit: nat, c: int, d: int)
    requires InRange(limit) && c in {-1, 0, 1, 3, 6} && d in {-1, 0, 1, 3, 6} && c <= d
    ensures (if c == 0 then limit else Moved(limit, c)) <= if d == 0 then limit else Moved(limit, d)
  {
    hide FloorRoot, CeilHalfRoot;
    if c == -1 {
      hide Moved;
      MovedBounds(limit, c);
      MovedBounds(limit, d);
    } else if c == 0 {
      hide Moved;
      MovedBounds(limit, d);
    } else {
      RaisesOrder(limit, c, d);
    }
  }

  /** For the same limit, minimum, in-flight maximum and drops, a longer round trip never gives a higher
      limit. */
  lemma LongerTripsNeverRaise(v: Control, r: Reading, s: Reading)
    requires InRange(v.limit) && 0 < v.minRTT <= r.lastRTT <= s.lastRTT
    requires r.drop == s.drop && r.flightForLimit == s.flightForLimit
    ensures NewLimit(v, s) <= NewLimit(v, r)
  {
    var l, m, a, b := v.limit, v.minRTT, r.lastRTT, s.lastRTT;
    QueueGrows(l, m, a, b, 1);
    QueueGrows(l, m, a, b, 2);
    QueueGrows(l, m, a, b, 3);
    QueueGrows(l, m, a, b, 6);
    hide QueueBelow, QueueAbove, Moved;
    BelowNotAbove(l, m, b);
    MovesOrder(l, Thresholds(l, m, b), Thresholds(l, m, a));
  }

  lemma BelowNotAbove(l: int, minRTT: int, b: int)
    requires 0 < l && 0 < b
    ensures QueueAbove(l, minRTT, b, 6) ==>
              !QueueBelow(l, minRTT, b, 1) && !QueueBelow(l, minRTT, b, 2) && !QueueBelow(l, minRTT, b, 3)
  {
    assert 1 * 1 * b * b == b * b && 2 * 2 * b * b == 4 * (b * b) && 3 * 3 * b * b == 9 * (b * b)
           && 6 * 6 * b * b == 36 * (b * b);
    assert b * b > 0;
  }

  // ---- Runs -----------------------------------------------------------------------------------------

  /** The control state after a sequence of windows. */
  ghost function Run(v: Control, rs: seq<Reading>): (u: Control)
    requires Inv(v) && Feasible(v, rs)
    ensures Inv(u)
    decreases |rs|, 1
  {
    if rs == [] then v
    else
      var p := Run(v, rs[..|rs| - 1]);
      UpdateKeeps(p, rs[|rs| - 1]);
      Update(p, rs[|rs| - 1])
  }

  /** Every reading is possible in the state it meets. */
  ghost predicate Feasible(v: Control, rs: seq<Reading>)
    requires Inv(v)
    decreases |rs|, 0
  {
    rs == [] || (Feasible(v, rs[..|rs| - 1]) && Possible(Run(v, rs[..|rs| - 1]), rs[|rs| - 1]))
  }

  function Least(rs: seq<Reading>): (m: int)
    requires rs != []
    ensures forall r | r in rs :: m <= r.lastRTT
    ensures exists r | r in rs :: m == r.lastRTT
  {
    var l := rs[|rs| - 1].lastRTT;
    if |rs| == 1 then assert rs[0] in rs; l
    else
      var m := Least(rs[..|rs| - 1]);
      assert rs[|rs| - 1] in rs;
      assert forall r | r in rs :: r in rs[..|rs| - 1] || r == rs[|rs| - 1];
      if l < m then l else m
  }

  /** Where the minimum was taken up: the latest probe reset, or the first window. */
  ghost function Origin(v: Control, rs: seq<Reading>): (k: nat)
    requires Inv(v) && Feasible(v, rs) && rs != []
    ensures k < |rs|
    decreases |rs|
  {
    var n := |rs| - 1;
    if n == 0 || Resets(Run(v, rs[..n]), rs[n]) then n else Origin(v, rs[..n])
  }

  /** The minimum round trip time is that of the windows since the latest reset of the probes, or since the
      beginning if there was none. */
  lemma {:induction false} MinimumSinceReset(v: Control, rs: seq<Reading>)
    requires Inv(v) && v.minRTT == 0 && Feasible(v, rs) && rs != []
    ensures Run(v, rs).minRTT == Least(rs[Origin(v, rs)..])
    decreases |rs|
  {
    var n := |rs| - 1;
    var k := Origin(v, rs);
    if n == 0 || Resets(Run(v, rs[..n]), rs[n]) {
      assert rs[k..] == [rs[n]];
    } else {
      hide Possible, NewLimit, Feasible;
      MinimumSinceReset(v, rs[..n]);
      UpdateKeeps(Run(v, rs[..n][..n - 1]), rs[..n][n - 1]);
      assert rs[k..][..|rs[k..]| - 1] == rs[..n][k..];
    }
  }

  // ---- When the minimum is taken up anew ------------------------------------------------------------

  lemma {:induction false} FeasiblePrefix(v: Control, rs: seq<Reading>, k: nat)
    requires Inv(v) && Feasible(v, rs) && k <= |rs|
    ensures Feasible(v, rs[..k])
    ensures k < |rs| ==> rs[..k + 1][..k] == rs[..k] && Possible(Run(v, rs[..k]), rs[k])
    decreases |rs|
  {
    hide Possible, Update;
    if k == |rs| {
      assert rs[..k] == rs;
    } else if k < |rs| - 1 {
      FeasiblePrefix(v, rs[..|rs| - 1], k);
      assert rs[..|rs| - 1][..k] == rs[..k];
    }
  }

  /** Window `k` resets the minimum. */
  ghost predicate ResetAt(v: Control, rs: seq<Reading>, k: nat)
    requires Inv(v) && Feasible(v, rs) && k < |rs|
  {
    FeasiblePrefix(v, rs, k);
    Resets(Run(v, rs[..k]), rs[k])
  }

  /** The window had few requests in flight: less than half the limit, or no more than 8. */
  ghost predicate LowAt(v: Control, rs: seq<Reading>, k: nat)
    requires Inv(v) && Feasible(v, rs) && k < |rs|
  {
    FeasiblePrefix(v, rs, k);
    rs[k].flightForMin * 2 < Run(v, rs[..k]).limit || rs[k].flightForMin <= 8
  }

  lemma ProbesAfter(v: Control, rs: seq<Reading>, k: nat)
    requires Inv(v) && Feasible(v, rs) && k < |rs|
    ensures Feasible(v, rs[..k]) && Feasible(v, rs[..k + 1])
    ensures Run(v, rs[..k + 1]).probes ==
            if ResetAt(v, rs, k) then 3 * Run(v, rs[..k]).limit + rs[k].random else Run(v, rs[..k]).probes - 1
    ensures ResetAt(v, rs, k) <==> Run(v, rs[..k]).probes <= 1 && LowAt(v, rs, k)
  {
    hide NewLimit, NewUpdateTime, Possible;
    FeasiblePrefix(v, rs, k);
    FeasiblePrefix(v, rs, k + 1);
    assert rs[..k + 1][..|rs[..k + 1]| - 1] == rs[..k] && rs[..k + 1][k] == rs[k];
  }

  lemma {:induction false} ProbesCountDown(v: Control, rs: seq<Reading>, k: nat, j: nat)
    requires Inv(v) && Feasible(v, rs) && k <= j <= |rs|
    requires forall i | k <= i < j :: !ResetAt(v, rs, i)
    ensures Feasible(v, rs[..k]) && Feasible(v, rs[..j])
    ensures Run(v, rs[..j]).probes == Run(v, rs[..k]).probes - (j - k)
  {
    hide ResetAt, LowAt;
    FeasiblePrefix(v, rs, k);
    if k < j {
      ProbesCountDown(v, rs, k, j - 1);
      ProbesAfter(v, rs, j - 1);
    }
  }

  /** After a reset the next one comes with the first window of few requests from number `3 limit + random`
      on, for the limit then: not before, and no later. */
  lemma NextResetIff(v: Control, rs: seq<Reading>, k: nat, j: nat)
    requires Inv(v) && Feasible(v, rs) && k < j < |rs| && ResetAt(v, rs, k)
    requires forall i | k < i < j :: !ResetAt(v, rs, i)
    ensures Feasible(v, rs[..k])
    ensures ResetAt(v, rs, j) <==> 3 * Run(v, rs[..k]).limit + rs[k].random <= j - k && LowAt(v, rs, j)
  {
    hide ResetAt, LowAt;
    ProbesAfter(v, rs, k);
    ProbesCountDown(v, rs, k + 1, j);
    ProbesAfter(v, rs, j);
  }

  /** The first one comes with the first such window from the hundredth on. */
  lemma FirstResetIff(v: Control, rs: seq<Reading>, j: nat)
    requires Inv(v) && v.probes == 100 && Feasible(v, rs) && j < |rs|
    requires forall i | 0 <= i < j :: !ResetAt(v, rs, i)
    ensures ResetAt(v, rs, j) <==> 100 <= j + 1 && LowAt(v, rs, j)
  {
    hide ResetAt, LowAt;
    ProbesCountDown(v, rs, 0, j);
    ProbesAfter(v, rs, j);
    assert rs[..0] == [];
  }

  // ---- How fast the limit converges -----------------------------------------------------------------

  lemma FallingRoot(a: int, b: int, p: int)
    requires 0 <= a <= p * p && a <= b * b && 50 <= b && 50 <= p
    ensures a - 100 * b <= (p - 50) * (p - 50)
  {
    assert (p - 50) * (p - 50) == p * p - 100 * p + 2500;
    if b < p {
      SquareOrder(b - 50, p - 50);
      assert (b - 50) * (b - 50) == b * b - 100 * b + 2500;
    }
  }

  /** A drop takes at least a quarter off the square root of the limit (here 200 times the root). */
  lemma DropLowersRoot(limit: nat, p: int)
    requires InRange(limit) && 50 <= p && 40000 * limit <= p * p
    ensures Moved(limit, -1) == 8 || 40000 * Moved(limit, -1) <= (p - 50) * (p - 50)
  {
    var m := CeilHalfRoot(limit);
    ScaledHalf(limit, m);
    FallingRoot(40000 * limit, 400 * m, p);
  }

  lemma ScaledHalf(limit: nat, m: nat)
    requires 8 <= limit <= 4 * m * m
    ensures 1 <= m && 40000 * limit <= (400 * m) * (400 * m)
  {
    assert (400 * m) * (400 * m) == 40000 * (4 * m * m);
  }

  lemma RisingRoot(limit: int, m: int, p: int)
    requires 8 <= limit && 0 <= m && 9 * limit < (m + 1) * (m + 1) && 0 <= p && p * p <= 10000 * limit
    ensures (p + 100) * (p + 100) <= 10000 * (limit + m)
  {
    SquareOrder(8, m + 1);
    assert (3 * p) * (3 * p) == 9 * (p * p);
    assert (100 * (m + 1)) * (100 * (m + 1)) == 10000 * ((m + 1) * (m + 1));
    SquareOrder(3 * p, 100 * (m + 1));
    assert p <= 50 * (m - 1);
    assert (p + 100) * (p + 100) == p * p + 200 * p + 10000;
  }

  /** A window that asks for more raises the root by at least one (here 100 times the root), even after
      truncation. */
  lemma GrowthRaisesRoot(limit: nat, p: int)
    requires InRange(limit) && 0 <= p && p * p <= 10000 * limit
    ensures Moved(limit, 6) == 2048 || (p + 100) * (p + 100) <= 10000 * Moved(limit, 6)
  {
    assert 6 * 6 * limit / 4 == 9 * limit;
    RisingRoot(limit, FloorRoot(9 * limit), p);
  }

  ghost predicate AllDrop(rs: seq<Reading>) {
    forall r | r in rs :: r.drop
  }

  /** After `n` windows with drops, 200 times the root of the limit is at most 9051 - 50 n. */
  lemma {:induction false} FallingLimit(v: Control, rs: seq<Reading>)
    requires Inv(v) && Feasible(v, rs) && AllDrop(rs)
    ensures || Run(v, rs).limit == 8
            || (|rs| < 170 && 40000 * Run(v, rs).limit <= (9051 - 50 * |rs|) * (9051 - 50 * |rs|))
    decreases |rs|
  {
    if rs != [] {
      var n := |rs| - 1;
      FallingLimit(v, rs[..n]);
      var p := Run(v, rs[..n]);
      assert rs[n] in rs;
      if p.limit == 8 {
        MovedBounds(8, -1);
      } else {
        DropLowersRoot(p.limit, 9051 - 50 * n);
        MovedBounds(p.limit, -1);
        assert n == 169 ==> 9051 - 50 * n - 50 == 551 && 551 * 551 < 40000 * 8;
      }
    }
  }

  /** From any limit, 170 windows in a row with drops bring it down to the least. */
  lemma DropsReachMinimum(v: Control, rs: seq<Reading>)
    requires Inv(v) && Feasible(v, rs) && AllDrop(rs) && 170 <= |rs|
    ensures Run(v, rs).limit == MIN_LIMIT
  {
    FallingLimit(v, rs);
  }

  /** Every window is saturated, free of drops, and meets a queue below the threshold. */
  ghost predicate AllGrow(v: Control, rs: seq<Reading>)
    requires Inv(v) && Feasible(v, rs)
    decreases |rs|
  {
    rs == [] ||
    var n := |rs| - 1;
    && AllGrow(v, rs[..n])
    && !rs[n].drop && Run(v, rs[..n]).limit <= rs[n].flightForLimit * 2
    && QueueBelow(Run(v, rs[..n]).limit, WithMin(Run(v, rs[..n]), rs[n]).minRTT, rs[n].lastRTT, 1)
  }

  /** A window that is saturated, free of drops, and meets a queue below the threshold asks for more. */
  lemma Grows(p: Control, r: Reading)
    requires Inv(p) && !r.drop && p.limit <= r.flightForLimit * 2
    requires QueueBelow(p.limit, WithMin(p, r).minRTT, r.lastRTT, 1)
    ensures Update(p, r).limit == Moved(p.limit, 6)
  {
    hide Moved;
  }

  lemma {:induction false} RisingLimit(v: Control, rs: seq<Reading>)
    requires Inv(v) && Feasible(v, rs) && AllGrow(v, rs)
    ensures Run(v, rs).limit == 2048 || (282 + 100 * |rs|) * (282 + 100 * |rs|) <= 10000 * Run(v, rs).limit
    decreases |rs|
  {
    if rs != [] {
      var n := |rs| - 1;
      RisingLimit(v, rs[..n]);
      var p := Run(v, rs[..n]);
      Grows(p, rs[n]);
      hide Moved, Update, WithMin, QueueBelow;
      if p.limit == 2048 {
        MovedBounds(2048, 6);
      } else {
        GrowthRaisesRoot(p.limit, 282 + 100 * n);
      }
    }
  }

  /** From any limit, 43 such windows in a row bring it up to the greatest. */
  lemma GrowthReachesMaximum(v: Control, rs: seq<Reading>)
    requires Inv(v) && Feasible(v, rs) && AllGrow(v, rs) && 43 <= |rs|
    ensures Run(v, rs).limit == MAX_LIMIT
  {
    RisingLimit(v, rs);
    SquareOrder(4582, 282 + 100 * |rs|);
    assert 4582 * 4582 > 10000 * 2048;
  }

  /** Every window ended after the update time it found, as it does when callbacks come one at a time. */
  ghost predicate Timely(v: Control, rs: seq<Reading>)
    requires Inv(v) && Feasible(v, rs)
    decreases |rs|
  {
    rs == [] || (Timely(v, rs[..|rs| - 1]) && Run(v, rs[..|rs| - 1]).updateTime < rs[|rs| - 1].end)
  }

  /** A window that ends right after the update time, in which the round trip time is one, the least. */
  function FastWindow(v: Control, drop: bool): Reading {
    Reading(1, v.updateTime + 1, MAX_LIMIT, drop, MAX_LIMIT, 0)
  }

  lemma {:induction false} OneMoreWindow(v: Control, rs: seq<Reading>, drop: bool)
    requires Inv(v) && Feasible(v, rs) && Timely(v, rs)
    ensures var longer := rs + [FastWindow(Run(v, rs), drop)];
            && Feasible(v, longer) && Timely(v, longer)
            && (AllDrop(rs) && drop ==> AllDrop(longer))
            && (AllGrow(v, rs) && !drop ==> AllGrow(v, longer))
  {
    hide Update;
    var r := FastWindow(Run(v, rs), drop);
    var longer := rs + [r];
    assert longer[..|rs|] == rs && longer[|rs|] == r;
    NoQueue(Run(v, rs), r);
  }

  /** A window that asks for more raises the limit by eight, unless the greatest is reached. */
  lemma RaisedByEight(limit: nat)
    requires InRange(limit)
    ensures Moved(limit, 6) == MAX_LIMIT || limit + 8 <= Moved(limit, 6) <= MAX_LIMIT
  {
    hide FloorRoot;
    assert 6 * 6 * limit / 4 == 9 * limit;
    SquareOrder(8, FloorRoot(9 * limit) + 1);
  }

  /** With a round trip time of one there is no queue. */
  lemma NoQueue(p: Control, r: Reading)
    requires Inv(p) && r.lastRTT == 1
    ensures QueueBelow(p.limit, WithMin(p, r).minRTT, 1, 1)
  {
    assert WithMin(p, r).minRTT <= 1;
  }

  /** Runs as the two convergence results speak of exist from every state, of every length, with each window
      ending after the update time as the code demands. */
  lemma {:induction false} ConvergingRunsExist(v: Control, n: nat) returns (drops: seq<Reading>, grows: seq<Reading>)
    requires Inv(v)
    ensures |drops| == n && Feasible(v, drops) && Timely(v, drops) && AllDrop(drops)
    ensures |grows| == n && Feasible(v, grows) && Timely(v, grows) && AllGrow(v, grows)
  {
    hide AllDrop, AllGrow, Feasible, Timely;
    if n == 0 {
      drops, grows := [], [];
      NoWindows(v);
    } else {
      drops, grows := ConvergingRunsExist(v, n - 1);
      OneMoreWindow(v, drops, true);
      OneMoreWindow(v, grows, false);
      drops, grows := drops + [FastWindow(Run(v, drops), true)], grows + [FastWindow(Run(v, grows), false)];
    }
  }

  lemma NoWindows(v: Control)
    requires Inv(v)
    ensures Feasible(v, []) && Timely(v, []) && AllDrop([]) && AllGrow(v, [])
  {
  }
}
