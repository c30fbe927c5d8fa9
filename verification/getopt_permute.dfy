/**
 * The two helpers the Windows `getopt` uses to move options ahead of
 * non-options: `gcd`, Euclid's algorithm on C `int`s, and `permute_args`,
 * which exchanges two adjacent blocks of `argv` by following `gcd` cycles
 * of swaps.
 *
 * `argv` is a sequence (its entries are the `char *` pointers, whatever
 * their type); indices are the C `int`s, unbounded here.
 */
module GetoptPermute {
  import opened Arith

  /** C's `a % b`: division truncates toward zero, so the remainder takes the sign of `a`. */
  function CRem(a: int, b: int): (r: int)
    requires b != 0
    ensures Abs(r) < Abs(b)
    ensures a >= 0 ==> r >= 0
    ensures a < 0 ==> r <= 0
    ensures Divides(Abs(b), a - r)
  {
    var m := Abs(b);
    var r := if a >= 0 then a % m else -((-a) % m);
    RemainderMultiple(a, m, r);
    r
  }

  lemma RemainderMultiple(a: int, m: nat, r: int)
    requires m > 0 && r == if a >= 0 then a % m else -((-a) % m)
    ensures Divides(m, a - r)
  {
    if a >= 0 {
      assert a - r == m * (a / m);
      DividesMultiple(m, a / m);
    } else {
      assert -a - (-r) == m * ((-a) / m);
      assert a - r == m * -((-a) / m);
      DividesMultiple(m, -((-a) / m));
    }
  }

  /** Replacing `a` by its remainder modulo `b` keeps the common divisors. */
  lemma RemainderDivisors(a: int, b: int)
    requires b != 0
    ensures forall d: nat :: Divides(d, a) && Divides(d, b) <==> Divides(d, b) && Divides(d, CRem(a, b))
  {
    var c := CRem(a, b);
    var t := (a - c) / Abs(b);
    forall d: nat | Divides(d, b)
      ensures Divides(d, a) <==> Divides(d, c)
    {
      DividesAbs(d, b);
      DividesLinear(d, Abs(b), Abs(b), t, 0);
      assert a - c == t * Abs(b);
      if Divides(d, a) {
        DividesLinear(d, a, t * Abs(b), 1, -1);
      }
      if Divides(d, c) {
        DividesLinear(d, c, t * Abs(b), 1, 1);
      }
    }
  }

  /**
   * `gcd(a, b)`: replace `(a, b)` by `(b, a % b)` until the remainder is 0,
   * then return `b`. The result's magnitude divides both arguments and
   * every common divisor divides it; for `a >= 0`, `b > 0` it is positive.
   * Only `b` must be nonzero: `gcd(0, b)` is `b`.
   */
  function Gcd(a: int, b: int): (r: int)
    requires b != 0
    ensures GcdOf(a, b, r)
    ensures a >= 0 && b > 0 ==> r > 0
    decreases Abs(b)
  {
    var c := CRem(a, b);
    if c == 0 then
      GcdBase(a, b);
      b
    else
      var g := Gcd(b, c);
      GcdStep(a, b, g);
      g
  }

  /** `r` is a greatest common divisor of `a` and `b`, up to sign. */
  ghost predicate GcdOf(a: int, b: int, r: int)
  {
    r != 0 && Divides(Abs(r), a) && Divides(Abs(r), b)
    && forall d: nat :: Divides(d, a) && Divides(d, b) ==> Divides(d, Abs(r))
  }

  lemma GcdBase(a: int, b: int)
    requires b != 0 && CRem(a, b) == 0
    ensures GcdOf(a, b, b)
  {
    DividesAbs(Abs(b), b);
    DividesMultiple(Abs(b), 1);
    forall d: nat | Divides(d, b)
      ensures Divides(d, Abs(b))
    {
      DividesAbs(d, b);
    }
  }

  lemma GcdStep(a: int, b: int, g: int)
    requires b != 0 && CRem(a, b) != 0 && GcdOf(b, CRem(a, b), g)
    ensures GcdOf(a, b, g)
  {
    RemainderDivisors(a, b);
  }

  /** The positive greatest common divisor is no larger than either positive argument. */
  lemma GcdBound(a: nat, b: nat)
    requires b > 0
    ensures 0 < Gcd(a, b) <= b
    ensures a > 0 ==> Gcd(a, b) <= a
  {
    var g := Gcd(a, b);
    DividesLe(g, b);
    if a > 0 {
      DividesLe(g, a);
    }
  }

  /** The blocks are cut into `gcd` cycles whose lengths add up to the two blocks. */
  lemma CyclesCover(nnonopts: nat, nopts: nat)
    requires nopts > 0
    ensures var g := Gcd(nnonopts, nopts);
      g > 0 && g * ((nnonopts + nopts) / g) == nnonopts + nopts
  {
    var g := Gcd(nnonopts, nopts);
    DividesLinear(g, nnonopts, nopts, 1, 1);
    DividesQuotient(g, nnonopts + nopts);
  }

  // ---------------------------------------------------------------------
  // The cycles of permute_args
  // ---------------------------------------------------------------------

  /** Bezout coefficients for `gcd(a, b)`, following the same remainders. */
  ghost function Bezout(a: nat, b: nat): (c: (int, int))
    requires b > 0
    ensures a * c.0 + b * c.1 == Gcd(a, b)
    decreases b
  {
    if a % b == 0 then (0, 1)
    else
      var c' := Bezout(b, a % b);
      BezoutStep(a, b, c'.0, c'.1, Gcd(a, b));
      (c'.1, c'.0 - (a / b) * c'.1)
  }

  lemma BezoutStep(a: nat, b: nat, x: int, y: int, g: int)
    requires b > 0 && b * x + (a % b) * y == g
    ensures a * y + b * (x - (a / b) * y) == g
  {
    var q := a / b;
    assert a % b == a - q * b;
    assert (a - q * b) * y == a * y - q * b * y;
    assert b * (x - q * y) == b * x - q * b * y;
  }

  /**
   * The cycles `permute_args` follows for blocks of `nonopts` and `opts`
   * entries, as offsets from the first non-option: `g = gcd(nonopts, opts)`
   * cycles of `len` steps covering the `n = nonopts + opts` offsets, with
   * Bezout coefficients `n * x + opts * y == g`.
   */
  datatype Cycles = Cycles(nonopts: nat, opts: nat, g: nat, len: nat, x: int, y: int)
  {
    function N(): nat
    {
      nonopts + opts
    }

    ghost predicate Valid()
    {
      opts > 0 && 0 < g <= opts && len == N() / g && g * len == N()
      && Divides(g, nonopts) && Divides(g, opts) && N() * x + opts * y == g
    }

    /** The offset cycle `i` has reached after `k` steps. */
    function Orbit(i: nat, k: nat): (p: nat)
      requires opts > 0
      ensures p < N()
    {
      (nonopts + i + k * opts) % N()
    }

    /** The offset whose entry must end up at offset `p`. */
    function Source(p: nat): (q: nat)
      requires opts > 0
      ensures q < N()
    {
      (p + nonopts) % N()
    }
  }

  lemma ShapeOf(nonopts: nat, opts: nat) returns (c: Cycles)
    requires opts > 0
    ensures c.Valid() && c.nonopts == nonopts && c.opts == opts && c.g == Gcd(nonopts, opts)
  {
    var g := Gcd(nonopts, opts);
    GcdBound(nonopts, opts);
    CyclesCover(nonopts, opts);
    assert GcdOf(nonopts, opts, g);
    var b := Bezout(nonopts, opts);
    BezoutShift(nonopts, opts, b.0, b.1);
    c := Cycles(nonopts, opts, g, (nonopts + opts) / g, b.0, b.1 - b.0);
  }

  lemma BezoutShift(a: int, b: int, x: int, y: int)
    ensures (a + b) * x + b * (y - x) == a * x + b * y
  {
    assert (a + b) * x == a * x + b * x;
    assert b * (y - x) == b * y - b * x;
  }

  /** Each step moves back by `nonopts` from the option block and forward by `opts` from the other. */
  lemma OrbitStep(c: Cycles, i: nat, k: nat)
    requires c.opts > 0
    ensures c.Orbit(i, k) >= c.nonopts ==> c.Orbit(i, k + 1) == c.Orbit(i, k) - c.nonopts
    ensures c.Orbit(i, k) < c.nonopts ==> c.Orbit(i, k + 1) == c.Orbit(i, k) + c.opts
  {
    var n := c.N();
    var a := c.nonopts + i + k * c.opts;
    var p := c.Orbit(i, k);
    assert a + c.opts == c.nonopts + i + (k + 1) * c.opts;
    assert p == a + n * -(a / n);
    ModShift(a + c.opts, n, -(a / n));
    if p >= c.nonopts {
      DivModUnique(p + c.opts, n, 1, p - c.nonopts);
    } else {
      DivModUnique(p + c.opts, n, 0, p + c.opts);
    }
  }

  /** Cycle `i` starts at `nonopts + i`, the `i`-th option, and closes after `len` steps. */
  lemma OrbitEnds(c: Cycles, i: nat)
    requires c.Valid() && i < c.g
    ensures c.Orbit(i, 0) == c.nonopts + i
    ensures c.Orbit(i, c.len) == c.nonopts + i
  {
    var n := c.N();
    DivModUnique(c.nonopts + i, n, 0, c.nonopts + i);
    var o := c.opts / c.g;
    DividesQuotient(c.g, c.opts);
    LenTimesOpts(c.g, c.len, n, c.opts, o);
    ModShift(c.nonopts + i, n, o);
  }

  lemma LenTimesOpts(g: int, len: int, n: int, opts: int, o: int)
    requires g * len == n && opts == g * o
    ensures len * opts == n * o
  {
    assert len * (g * o) == (g * len) * o;
  }

  /** The entry that lands at step `k` of a cycle comes from step `k - 1`. */
  lemma OrbitSource(c: Cycles, i: nat, k: nat)
    requires c.opts > 0 && k >= 1
    ensures c.Source(c.Orbit(i, k)) == c.Orbit(i, k - 1)
  {
    var n := c.N();
    var a := c.nonopts + i + k * c.opts;
    var b := c.nonopts + i + (k - 1) * c.opts;
    assert a + c.nonopts == b + n * 1 by {
      assert k * c.opts == (k - 1) * c.opts + c.opts;
    }
    assert c.Source(c.Orbit(i, k)) == (a % n + c.nonopts) % n;
    ModAddMod(a, c.nonopts, n);
    ModShift(b, n, 1);
    assert c.Orbit(i, k - 1) == b % n;
  }

  /** Every offset of cycle `i` is congruent to `i` modulo `g`. */
  lemma OrbitResidue(c: Cycles, i: nat, k: nat)
    requires c.Valid() && i < c.g
    ensures c.Orbit(i, k) % c.g == i
  {
    var t := c.nonopts + k * c.opts;
    DividesLinear(c.g, c.nonopts, c.opts, 1, k);
    ModMod(c.nonopts + i + k * c.opts, c.N(), c.g);
    ModAddMultiple(i, t, c.g);
    DivModUnique(i, c.g, 0, i);
  }

  /** An entry's source is in the same cycle. */
  lemma SourceResidue(c: Cycles, p: nat)
    requires c.Valid() && p < c.N()
    ensures c.Source(p) % c.g == p % c.g
  {
    ModMod(p + c.nonopts, c.N(), c.g);
    ModAddMultiple(p, c.nonopts, c.g);
  }

  /** Within one cycle, the first `len` steps visit distinct offsets. */
  lemma OrbitInjective(c: Cycles, i: nat, k: nat, k': nat)
    requires c.Valid() && k < k' < c.len
    ensures c.Orbit(i, k) != c.Orbit(i, k')
  {
    StepsDistinct(c.N(), c.opts, c.g, c.len, c.x, c.y, c.nonopts + i, k, k');
  }

  /** The arithmetic behind `OrbitInjective`, with the cycle's facts as plain hypotheses. */
  lemma StepsDistinct(n: int, opts: int, g: int, len: int, x: int, y: int, b: int, k: int, k': int)
    requires n > 0 && g > 0 && g * len == n && n * x + opts * y == g && 0 <= k < k' < len
    ensures (b + k * opts) % n != (b + k' * opts) % n
  {
    var a, a' := b + k * opts, b + k' * opts;
    var e := k' - k;
    if a % n == a' % n {
      SameRemainder(a', a, n);
      assert a' - a == e * opts;
      DividesQuotient(n, e * opts);
      var w := (e * opts) / n;
      CycleArith(n, opts, g, len, x, y, e, w);
      NoMultipleBelow(len, e * x + w * y);
    }
  }

  /** No multiple of `len` lies strictly between 0 and `len`. */
  lemma NoMultipleBelow(len: int, m: int)
    requires len > 0
    ensures len * m <= 0 || len * m >= len
  {
    if m >= 1 {
      MulAtLeast(m, len);
    }
  }

  /** A step count that brings a cycle back to an earlier offset is a multiple of `len`. */
  lemma CycleArith(n: int, opts: int, g: int, len: int, x: int, y: int, e: int, w: int)
    requires g > 0 && g * len == n && n * x + opts * y == g && e * opts == n * w
    ensures e == len * (e * x + w * y)
  {
    assert g * e == e * (n * x + opts * y);
    assert e * (n * x + opts * y) == n * (e * x) + (e * opts) * y;
    assert n * (e * x) + (n * w) * y == n * (e * x + w * y);
    assert n * (e * x + w * y) == g * (len * (e * x + w * y));
    Cancel(g, e, len * (e * x + w * y));
  }

  /** The step at which the cycle through offset `p` reaches it. */
  ghost function Log(c: Cycles, p: nat): (k: nat)
    requires c.Valid() && p < c.N()
    ensures k < c.len
  {
    var s := (p - c.nonopts - p % c.g) / c.g;
    (s * c.y) % c.len
  }

  /** Every offset lies on its cycle: cycle `p % g` reaches `p` at step `Log(c, p)`. */
  lemma LogReaches(c: Cycles, p: nat)
    requires c.Valid() && p < c.N()
    ensures c.Orbit(p % c.g, Log(c, p)) == p
  {
    var n, i := c.N(), p % c.g;
    var t := p - c.nonopts - i;
    var s := t / c.g;
    LogQuotient(c, p);
    var q := (s * c.y) / c.len;
    var k := Log(c, p);
    assert k == s * c.y - c.len * q;
    var o := c.opts / c.g;
    DividesQuotient(c.g, c.opts);
    LogArith(c.nonopts, i, p, t, s, c.x, c.y, c.g, n, c.len, q, k, c.opts, o);
    ModShift(p, n, -(s * c.x + q * o));
    DivModUnique(p, n, 0, p);
  }

  /** `p - nonopts - p % g` is a multiple of `g`. */
  lemma LogQuotient(c: Cycles, p: nat)
    requires c.Valid()
    ensures var t := p - c.nonopts - p % c.g;
      t == c.g * (t / c.g)
  {
    var t := p - c.nonopts - p % c.g;
    DividesQuotient(c.g, c.nonopts);
    assert p - p % c.g == c.g * (p / c.g);
    assert t == c.g * (p / c.g - c.nonopts / c.g);
    DividesMultiple(c.g, p / c.g - c.nonopts / c.g);
    DividesQuotient(c.g, t);
  }

  lemma LogArith(u: int, i: int, p: int, t: int, s: int, x: int, y: int, g: int, n: int, len: int, q: int, k: int, opts: int, o: int)
    requires t == p - u - i && t == g * s && n * x + opts * y == g
    requires k == s * y - len * q && g * len == n && opts == g * o
    ensures u + i + k * opts == p + n * -(s * x + q * o)
  {
    assert k * opts == s * (y * opts) - q * (len * opts);
    assert s * (y * opts) == s * g - n * (s * x);
    assert len * opts == n * o by {
      LenTimesOpts(g, len, n, opts, o);
    }
    assert q * (n * o) == n * (q * o);
  }

  /** `Log` inverts the walk along a cycle. */
  lemma LogOfOrbit(c: Cycles, i: nat, k: nat)
    requires c.Valid() && i < c.g && k < c.len
    ensures Log(c, c.Orbit(i, k)) == k
  {
    var p := c.Orbit(i, k);
    OrbitResidue(c, i, k);
    LogReaches(c, p);
    var l := Log(c, p);
    if l < k {
      OrbitInjective(c, i, l, k);
    } else if k < l {
      OrbitInjective(c, i, k, l);
    }
  }

  /** Where the entries come from: the option block moves to the front, the non-options after it. */
  lemma SourceValue(c: Cycles, p: nat)
    requires c.opts > 0 && p < c.N()
    ensures p < c.opts ==> c.Source(p) == p + c.nonopts
    ensures p >= c.opts ==> c.Source(p) == p - c.opts
  {
    if p < c.opts {
      DivModUnique(p + c.nonopts, c.N(), 0, p + c.nonopts);
    } else {
      DivModUnique(p + c.nonopts, c.N(), 1, p - c.opts);
    }
  }

  /**
   * What one cycle needs to know, as tables over offsets in a range of `n =
   * nonopts + opts`: `orb[k]` is the offset reached after `k` of the `len`
   * steps, `log[y]` the step at which the cycle reaches `y` (negative when
   * it never does), and `src[y]` the offset whose entry belongs at `y`.
   */
  ghost predicate CycleTable(nonopts: nat, opts: nat, i: nat, len: nat, orb: seq<nat>, log: seq<int>, src: seq<nat>)
  {
    var n := nonopts + opts;
    |orb| == len + 1 && |log| == n && |src| == n && len >= 1
    && orb[0] == nonopts + i && orb[len] == nonopts + i
    && (forall k :: 0 <= k <= len ==> orb[k] < n)
    && (forall k :: 0 <= k < len ==> OrbitMove(orb, k, nonopts, opts))
    && (forall k :: 0 <= k < len ==> log[orb[k]] == k)
    && (forall y :: 0 <= y < n && log[y] >= 0 ==> log[y] < len && orb[log[y]] == y)
    && (forall k :: 1 <= k <= len ==> SourceStep(orb, src, k))
    && (forall y :: 0 <= y < n ==> src[y] < n)
  }

  /** Step `k` of a cycle moves back by `nonopts` from the option block and forward by `opts` from the other. */
  ghost predicate OrbitMove(orb: seq<nat>, k: nat, nonopts: nat, opts: nat)
    requires k + 1 < |orb|
  {
    && (orb[k] >= nonopts ==> orb[k + 1] == orb[k] - nonopts)
    && (orb[k] < nonopts ==> orb[k + 1] == orb[k] + opts)
  }

  /** The offset reached at step `k` takes its entry from the offset reached at step `k - 1`. */
  ghost predicate SourceStep(orb: seq<nat>, src: seq<nat>, k: nat)
    requires 1 <= k < |orb| && orb[k] < |src|
  {
    src[orb[k]] == orb[k - 1]
  }

  /** The offsets cycle `i` reaches, step by step. */
  ghost function OrbitTable(c: Cycles, i: nat): (orb: seq<nat>)
    requires c.opts > 0
    ensures |orb| == c.len + 1
    ensures forall k :: 0 <= k <= c.len ==> orb[k] == c.Orbit(i, k)
  {
    seq(c.len + 1, k requires 0 <= k => c.Orbit(i, k))
  }

  /** The step at which cycle `i` reaches each offset; -1 for the offsets of the other cycles. */
  ghost function LogTable(c: Cycles, i: nat): (log: seq<int>)
    requires c.Valid()
    ensures |log| == c.N()
    ensures forall y :: 0 <= y < c.N() ==> log[y] == if y % c.g == i then Log(c, y) else -1
  {
    seq(c.N(), y requires 0 <= y < c.N() => if y % c.g == i then Log(c, y) else -1)
  }

  /** Along the tables, each step moves as `permute_args` moves `pos`, and `log` numbers the steps. */
  lemma OrbitTableMoves(c: Cycles, i: nat)
    requires c.Valid() && i < c.g
    ensures var orb, log := OrbitTable(c, i), LogTable(c, i);
      forall k :: 0 <= k < c.len ==> OrbitMove(orb, k, c.nonopts, c.opts) && log[orb[k]] == k
  {
    var orb, log := OrbitTable(c, i), LogTable(c, i);
    forall k | 0 <= k < c.len
      ensures OrbitMove(orb, k, c.nonopts, c.opts) && log[orb[k]] == k
    {
      OrbitStep(c, i, k);
      OrbitResidue(c, i, k);
      LogOfOrbit(c, i, k);
    }
  }

  /** Every offset the log places on cycle `i` is reached at the logged step. */
  lemma LogTableReaches(c: Cycles, i: nat)
    requires c.Valid() && i < c.g
    ensures var orb, log := OrbitTable(c, i), LogTable(c, i);
      forall y :: 0 <= y < c.N() && log[y] >= 0 ==> log[y] < c.len && orb[log[y]] == y
  {
    var orb, log := OrbitTable(c, i), LogTable(c, i);
    forall y | 0 <= y < c.N() && log[y] >= 0
      ensures log[y] < c.len && orb[log[y]] == y
    {
      LogReaches(c, y);
    }
  }

  /** Each step of cycle `i` takes its entry from the offset of the step before. */
  lemma OrbitTableSources(c: Cycles, i: nat, src: seq<nat>)
    requires c.Valid() && i < c.g
    requires |src| == c.N() && forall y :: 0 <= y < c.N() ==> src[y] == c.Source(y)
    ensures var orb := OrbitTable(c, i);
      forall k :: 1 <= k <= c.len ==> SourceStep(orb, src, k)
  {
    var orb := OrbitTable(c, i);
    forall k | 1 <= k <= c.len
      ensures SourceStep(orb, src, k)
    {
      OrbitSource(c, i, k);
    }
  }

  /** The tables of cycle `i`, as `Orbit`, `Log` and `Source` give them; the cycle reaches exactly class `i`. */
  lemma CycleTableOf(c: Cycles, i: nat, cls: seq<nat>, src: seq<nat>) returns (orb: seq<nat>, log: seq<int>)
    requires c.Valid() && i < c.g
    requires |cls| == c.N() && |src| == c.N()
    requires forall y :: 0 <= y < c.N() ==> cls[y] == y % c.g && src[y] == c.Source(y)
    ensures CycleTable(c.nonopts, c.opts, i, c.len, orb, log, src)
    ensures forall y :: 0 <= y < c.N() ==> (log[y] >= 0 <==> cls[y] == i)
  {
    orb, log := OrbitTable(c, i), LogTable(c, i);
    OrbitEnds(c, i);
    OrbitTableMoves(c, i);
    LogTableReaches(c, i);
    OrbitTableSources(c, i, src);
  }

  /** The entries after the first `j` swaps of a cycle that starts at `cstart` and visits `start + orb[k]`. */
  ghost function CycleState<T>(b: seq<T>, start: nat, cstart: nat, orb: seq<nat>, j: nat): (r: seq<T>)
    requires j < |orb| && cstart < |b|
    requires forall k :: 0 <= k < |orb| ==> start + orb[k] < |b|
    ensures |r| == |b|
  {
    if j == 0 then b
    else
      var r := CycleState(b, start, cstart, orb, j - 1);
      var pos := start + orb[j];
      r[pos := r[cstart]][cstart := r[pos]]
  }

  /** The swaps touch only offsets of the cycle. */
  lemma {:induction false} CycleOutside<T>(b: seq<T>, start: nat, nonopts: nat, opts: nat, i: nat, len: nat,
                                           orb: seq<nat>, log: seq<int>, src: seq<nat>, j: nat)
    requires CycleTable(nonopts, opts, i, len, orb, log, src) && j <= len
    requires start + nonopts + opts <= |b|
    ensures var r := CycleState(b, start, start + nonopts + i, orb, j);
      forall k :: 0 <= k < |b| && !(start <= k < start + nonopts + opts) ==> r[k] == b[k]
  {
    if j > 0 {
      CycleOutside(b, start, nonopts, opts, i, len, orb, log, src, j - 1);
    }
  }

  /** Offsets the cycle has not reached yet keep their entries. */
  lemma {:induction false} CycleUnvisited<T>(b: seq<T>, start: nat, nonopts: nat, opts: nat, i: nat, len: nat,
                                             orb: seq<nat>, log: seq<int>, src: seq<nat>, j: nat)
    requires CycleTable(nonopts, opts, i, len, orb, log, src) && j <= len
    requires start + nonopts + opts <= |b|
    ensures var r := CycleState(b, start, start + nonopts + i, orb, j);
      forall y :: 0 <= y < |log| && (log[y] < 0 || log[y] > j) ==> r[start + y] == b[start + y]
  {
    if j > 0 {
      CycleUnvisited(b, start, nonopts, opts, i, len, orb, log, src, j - 1);
      assert log[orb[0]] == 0;
      if j < len {
        assert log[orb[j]] == j;
      }
    }
  }

  /** The cycle's start holds the entry of the offset last reached; after the full cycle, its source. */
  lemma {:induction false} CycleStart<T>(b: seq<T>, start: nat, nonopts: nat, opts: nat, i: nat, len: nat,
                                         orb: seq<nat>, log: seq<int>, src: seq<nat>, j: nat)
    requires CycleTable(nonopts, opts, i, len, orb, log, src) && j <= len
    requires start + nonopts + opts <= |b|
    ensures var r := CycleState(b, start, start + nonopts + i, orb, j);
      (j < len ==> r[start + nonopts + i] == b[start + orb[j]])
      && (j == len ==> r[start + nonopts + i] == b[start + src[nonopts + i]])
  {
    if j > 0 {
      CycleStart(b, start, nonopts, opts, i, len, orb, log, src, j - 1);
      if j == len {
        assert SourceStep(orb, src, len);
      }
      if j < len {
        CycleUnvisited(b, start, nonopts, opts, i, len, orb, log, src, j - 1);
        assert log[orb[j]] == j;
      }
    }
  }

  /** Offsets the cycle has reached hold the entries of their sources. */
  lemma {:induction false} CycleVisited<T>(b: seq<T>, start: nat, nonopts: nat, opts: nat, i: nat, len: nat,
                                           orb: seq<nat>, log: seq<int>, src: seq<nat>, j: nat)
    requires CycleTable(nonopts, opts, i, len, orb, log, src) && j <= len
    requires start + nonopts + opts <= |b|
    ensures var r := CycleState(b, start, start + nonopts + i, orb, j);
      forall y :: 0 <= y < |log| && 0 < log[y] <= j ==> r[start + y] == b[start + src[y]]
  {
    if j > 0 {
      CycleVisited(b, start, nonopts, opts, i, len, orb, log, src, j - 1);
      CycleStart(b, start, nonopts, opts, i, len, orb, log, src, j - 1);
      var r := CycleState(b, start, start + nonopts + i, orb, j);
      assert log[orb[0]] == 0;
      forall y | 0 <= y < |log| && 0 < log[y] <= j
        ensures r[start + y] == b[start + src[y]]
      {
        if log[y] == j {
          assert y == orb[j];
          assert SourceStep(orb, src, j);
        }
      }
    }
  }

  /**
   * One cycle of `permute_args`: from `cstart = end + i`, `len` steps each
   * move `pos` along the cycle and swap `argv[pos]` with `argv[cstart]`.
   * Every entry of the cycle receives the entry of its source; the other
   * entries stay.
   */
  method PermuteCycle<T>(b: seq<T>, start: nat, end: int, optEnd: int, i: nat, cyclelen: nat,
                         ghost orb: seq<nat>, ghost log: seq<int>, ghost src: seq<nat>)
    returns (r: seq<T>)
    requires start <= end < optEnd <= |b|
    requires CycleTable(end - start, optEnd - end, i, cyclelen, orb, log, src)
    ensures |r| == |b|
    ensures forall k :: 0 <= k < |b| && !(start <= k < optEnd) ==> r[k] == b[k]
    ensures forall y :: 0 <= y < |log| && log[y] >= 0 ==> r[start + y] == b[start + src[y]]
    ensures forall y :: 0 <= y < |log| && log[y] < 0 ==> r[start + y] == b[start + y]
  {
    r := WalkCycle(b, start, end, optEnd, i, cyclelen, end - start, optEnd - end, orb);
    CycleDone(b, start, end - start, optEnd - end, i, cyclelen, orb, log, src);
  }

  /** The swaps of one cycle, following `orb` from `cstart = end + i` for `len` steps. */
  method WalkCycle<T>(b: seq<T>, start: nat, end: int, optEnd: int, i: nat, cyclelen: nat,
                      ghost nonopts: nat, ghost opts: nat, ghost orb: seq<nat>)
    returns (r: seq<T>)
    requires start <= end < optEnd <= |b| && nonopts == end - start && opts == optEnd - end
    requires |orb| == cyclelen + 1 && orb[0] == nonopts + i
    requires forall k :: 0 <= k < |orb| ==> start + orb[k] < |b|
    requires forall k :: 0 <= k < cyclelen ==> OrbitMove(orb, k, nonopts, opts)
    ensures r == CycleState(b, start, end + i, orb, cyclelen)
  {
    var nnonopts := end - start;
    var nopts := optEnd - end;
    var cstart := end + i;
    var pos := cstart;
    r := b;
    var j := 0;
    while j < cyclelen
      invariant 0 <= j <= cyclelen
      invariant pos == start + orb[j]
      invariant r == CycleState(b, start, cstart, orb, j)
    {
      assert OrbitMove(orb, j, nnonopts, nopts);
      if pos >= end {
        pos := pos - nnonopts;
      } else {
        pos := pos + nopts;
      }
      var swap := r[pos];
      r := r[pos := r[cstart]];
      r := r[cstart := swap];
      j := j + 1;
    }
  }

  /** After the full cycle, every offset of it holds its source's entry and the rest are unchanged. */
  lemma CycleDone<T>(b: seq<T>, start: nat, nonopts: nat, opts: nat, i: nat, len: nat,
                     orb: seq<nat>, log: seq<int>, src: seq<nat>)
    requires CycleTable(nonopts, opts, i, len, orb, log, src)
    requires start + nonopts + opts <= |b|
    ensures var r := CycleState(b, start, start + nonopts + i, orb, len);
      && (forall k :: 0 <= k < |b| && !(start <= k < start + nonopts + opts) ==> r[k] == b[k])
      && (forall y :: 0 <= y < |log| && log[y] >= 0 ==> r[start + y] == b[start + src[y]])
      && (forall y :: 0 <= y < |log| && log[y] < 0 ==> r[start + y] == b[start + y])
  {
    CycleOutside(b, start, nonopts, opts, i, len, orb, log, src, len);
    CycleUnvisited(b, start, nonopts, opts, i, len, orb, log, src, len);
    CycleStart(b, start, nonopts, opts, i, len, orb, log, src, len);
    CycleVisited(b, start, nonopts, opts, i, len, orb, log, src, len);
    assert log[orb[0]] == 0;
  }

  /**
   * `permute_args(start, end, optEnd, argv)`: with `nnonopts = end - start`
   * and `nopts = optEnd - end`, run `gcd(nnonopts, nopts)` cycles of
   * `(optEnd - start) / gcd` steps each; cycle `i` starts at `end + i`,
   * and each step moves `pos` back by `nnonopts` when it is at or past
   * `end`, forward by `nopts` otherwise, and swaps `argv[pos]` with the
   * entry at the cycle's start. The result is the two blocks exchanged,
   * each in its order. The option block must be non-empty: `gcd` divides
   * by it.
   */
  method PermuteArgs<T>(argv: seq<T>, start: int, end: int, optEnd: int) returns (r: seq<T>)
    requires 0 <= start <= end < optEnd <= |argv|
    ensures r == argv[..start] + argv[end..optEnd] + argv[start..end] + argv[optEnd..]
    ensures multiset(r) == multiset(argv)
  {
    var nnonopts := end - start;
    var nopts := optEnd - end;
    var ncycle := Gcd(nnonopts, nopts);
    DivNonneg(optEnd - start, ncycle);
    var cyclelen := (optEnd - start) / ncycle;
    ghost var cls, src := Classes(nnonopts, nopts);
    r := RunCycles(argv, start, end, optEnd, ncycle, cyclelen, cls, src);
    AllCyclesDone(argv, r, start, end, optEnd, cls, src, ncycle);
  }

  /** The outer loop of `permute_args`: cycles `0 .. ncycle - 1`, one after the other. */
  method RunCycles<T>(argv: seq<T>, start: nat, end: int, optEnd: int, ncycle: nat, cyclelen: nat,
                      ghost cls: seq<nat>, ghost src: seq<nat>) returns (r: seq<T>)
    requires start <= end < optEnd <= |argv|
    requires ncycle == Gcd(end - start, optEnd - end) && cyclelen == (optEnd - start) / ncycle
    requires ClassTables(end - start, optEnd - end, cls, src)
    ensures |r| == |argv|
    ensures CyclesDone(argv, r, start, optEnd, cls, src, ncycle)
  {
    r := argv;
    var i: nat := 0;
    while i < ncycle
      invariant i <= ncycle
      invariant |r| == |argv|
      invariant CyclesDone(argv, r, start, optEnd, cls, src, i)
    {
      r := RunCycle(argv, r, start, end, optEnd, i, cyclelen, cls, src);
      i := i + 1;
    }
  }

  /** Once every class has had its cycle, the two blocks are exchanged. */
  lemma AllCyclesDone<T>(argv: seq<T>, r: seq<T>, start: nat, end: nat, optEnd: nat, cls: seq<nat>, src: seq<nat>, g: nat)
    requires start <= end < optEnd <= |argv| == |r|
    requires ClassTables(end - start, optEnd - end, cls, src) && g == Gcd(end - start, optEnd - end)
    requires CyclesDone(argv, r, start, optEnd, cls, src, g)
    ensures r == argv[..start] + argv[end..optEnd] + argv[start..end] + argv[optEnd..]
    ensures multiset(r) == multiset(argv)
  {
    Rotated(argv, r, start, end, optEnd, src);
  }

  /** The class and source tables of blocks of `nonopts` and `opts` entries, as `Classes` builds them. */
  ghost predicate ClassTables(nonopts: nat, opts: nat, cls: seq<nat>, src: seq<nat>)
    requires opts > 0
  {
    && |cls| == nonopts + opts && |src| == nonopts + opts
    && (forall y :: 0 <= y < |cls| ==> cls[y] == y % Gcd(nonopts, opts) && cls[y] < Gcd(nonopts, opts))
    && (forall y {:trigger src[y]} :: 0 <= y < |cls| ==> src[y] < |cls| && cls[src[y]] == cls[y])
    && (forall y :: 0 <= y < |cls| && y < opts ==> src[y] == y + nonopts)
    && (forall y :: 0 <= y < |cls| && y >= opts ==> src[y] == y - opts)
  }

  /** Cycles `0 .. i - 1` have moved their entries into place and nothing else has changed. */
  ghost predicate CyclesDone<T>(argv: seq<T>, r: seq<T>, start: nat, optEnd: nat, cls: seq<nat>, src: seq<nat>, i: nat)
    requires start <= optEnd <= |argv| == |r| && |cls| == optEnd - start && |src| == |cls|
    requires forall y :: 0 <= y < |cls| ==> src[y] < |cls|
  {
    && (forall k :: 0 <= k < |argv| && !(start <= k < optEnd) ==> r[k] == argv[k])
    && (forall y :: 0 <= y < |cls| && cls[y] < i ==> r[start + y] == argv[start + src[y]])
    && (forall y :: 0 <= y < |cls| && cls[y] >= i ==> r[start + y] == argv[start + y])
  }

  /** One turn of the outer loop of `permute_args`: cycle `i`, after cycles `0 .. i - 1`. */
  method RunCycle<T>(argv: seq<T>, b: seq<T>, start: nat, end: int, optEnd: int, i: nat, cyclelen: nat,
                     ghost cls: seq<nat>, ghost src: seq<nat>) returns (r: seq<T>)
    requires start <= end < optEnd <= |argv| == |b|
    requires i < Gcd(end - start, optEnd - end) && cyclelen == (optEnd - start) / Gcd(end - start, optEnd - end)
    requires ClassTables(end - start, optEnd - end, cls, src)
    requires CyclesDone(argv, b, start, optEnd, cls, src, i)
    ensures |r| == |argv|
    ensures CyclesDone(argv, r, start, optEnd, cls, src, i + 1)
  {
    ghost var len, orb, log := CycleTables(end - start, optEnd - end, i, cls, src);
    r := PermuteCycle(b, start, end, optEnd, i, cyclelen, orb, log, src);
    CycleInPlace(argv, b, r, start, optEnd, cls, src, log, i);
  }

  /** Running cycle `i` after cycles `0 .. i - 1` leaves cycles `0 .. i` done and the rest untouched. */
  lemma CycleInPlace<T>(argv: seq<T>, b: seq<T>, r: seq<T>, start: nat, optEnd: nat,
                        cls: seq<nat>, src: seq<nat>, log: seq<int>, i: nat)
    requires start <= optEnd <= |argv| && |b| == |argv| && |r| == |argv|
    requires |cls| == optEnd - start && |src| == |cls| && |log| == |cls|
    requires forall y {:trigger src[y]} :: 0 <= y < |cls| ==> src[y] < |cls| && cls[src[y]] == cls[y]
    requires forall y :: 0 <= y < |cls| ==> (log[y] >= 0 <==> cls[y] == i)
    requires CyclesDone(argv, b, start, optEnd, cls, src, i)
    requires forall k :: 0 <= k < |b| && !(start <= k < optEnd) ==> r[k] == b[k]
    requires forall y :: 0 <= y < |log| && log[y] >= 0 ==> r[start + y] == b[start + src[y]]
    requires forall y :: 0 <= y < |log| && log[y] < 0 ==> r[start + y] == b[start + y]
    ensures CyclesDone(argv, r, start, optEnd, cls, src, i + 1)
  {
    forall y | 0 <= y < |cls| && cls[y] == i
      ensures r[start + y] == argv[start + src[y]]
    {
      var z := src[y];
      assert cls[z] == i;
    }
  }

  /** The tables `permute_args` needs, for blocks of `nonopts` and `opts` entries. */
  lemma Classes(nonopts: nat, opts: nat) returns (cls: seq<nat>, src: seq<nat>)
    requires opts > 0
    ensures ClassTables(nonopts, opts, cls, src)
  {
    var c := ShapeOf(nonopts, opts);
    cls, src := ClassTable(c);
  }

  /** The tables of cycle `i`; it reaches exactly the offsets of class `i`. */
  lemma CycleTables(nonopts: nat, opts: nat, i: nat, cls: seq<nat>, src: seq<nat>)
    returns (len: nat, orb: seq<nat>, log: seq<int>)
    requires opts > 0 && i < Gcd(nonopts, opts)
    requires |cls| == nonopts + opts && |src| == nonopts + opts
    requires forall y :: 0 <= y < |cls| ==> cls[y] == y % Gcd(nonopts, opts)
    requires forall y :: 0 <= y < |cls| && y < opts ==> src[y] == y + nonopts
    requires forall y :: 0 <= y < |cls| && y >= opts ==> src[y] == y - opts
    ensures len == (nonopts + opts) / Gcd(nonopts, opts)
    ensures CycleTable(nonopts, opts, i, len, orb, log, src)
    ensures forall y :: 0 <= y < |cls| ==> (log[y] >= 0 <==> cls[y] == i)
  {
    var c := ShapeOf(nonopts, opts);
    forall y | 0 <= y < |cls|
      ensures src[y] == c.Source(y)
    {
      SourceValue(c, y);
    }
    orb, log := CycleTableOf(c, i, cls, src);
    len := c.len;
  }

  /** Offsets keep their class modulo `g` under `Source`, which moves the option block to the front. */
  lemma ClassTable(c: Cycles) returns (cls: seq<nat>, src: seq<nat>)
    requires c.Valid()
    ensures |cls| == c.N() && |src| == c.N()
    ensures forall y :: 0 <= y < c.N() ==> cls[y] == y % c.g && src[y] == c.Source(y) && cls[src[y]] == cls[y]
    ensures forall y :: 0 <= y < c.N() && y < c.opts ==> src[y] == y + c.nonopts
    ensures forall y :: 0 <= y < c.N() && y >= c.opts ==> src[y] == y - c.opts
  {
    cls := seq(c.N(), y requires 0 <= y < c.N() => y % c.g);
    src := seq(c.N(), y requires 0 <= y < c.N() => c.Source(y));
    forall y | 0 <= y < c.N()
      ensures cls[src[y]] == cls[y]
      ensures y < c.opts ==> src[y] == y + c.nonopts
      ensures y >= c.opts ==> src[y] == y - c.opts
    {
      SourceResidue(c, y);
      SourceValue(c, y);
    }
  }

  /** Every entry holding its source's entry is the exchange of the two blocks. */
  lemma Rotated<T>(argv: seq<T>, r: seq<T>, start: nat, end: nat, optEnd: nat, src: seq<nat>)
    requires start <= end < optEnd <= |argv| && |r| == |argv| && |src| == optEnd - start
    requires forall k :: 0 <= k < |argv| && !(start <= k < optEnd) ==> r[k] == argv[k]
    requires forall y :: 0 <= y < |src| ==> src[y] < |src| && r[start + y] == argv[start + src[y]]
    requires forall y :: 0 <= y < |src| && y < optEnd - end ==> src[y] == y + (end - start)
    requires forall y :: 0 <= y < |src| && y >= optEnd - end ==> src[y] == y - (optEnd - end)
    ensures r == argv[..start] + argv[end..optEnd] + argv[start..end] + argv[optEnd..]
    ensures multiset(r) == multiset(argv)
  {
    var s := argv[..start] + argv[end..optEnd] + argv[start..end] + argv[optEnd..];
    forall k | 0 <= k < |r|
      ensures r[k] == s[k]
    {
      if start <= k < optEnd {
        var y := k - start;
        assert r[k] == argv[start + src[y]];
      }
    }
    assert r == s;
    assert argv == argv[..start] + argv[start..end] + argv[end..optEnd] + argv[optEnd..];
  }
}
