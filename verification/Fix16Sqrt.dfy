/**
 The square root of libyaul/math/fix16_sqrt.c, in 32-bit words. The remainder is doubled in each of 24
 steps and may lose its highest bit; the root is exact if and only if it does not, the last step aside,
 which the value alone decides.
 */
module Fix16Sqrt {
  import opened Binary
  import opened Multiples

  const HALF := 0x8000_0000
  const STEPS := 24

  /** The registers: remainder, twice the root so far, and the bit that is tried next. */
  datatype State = State(r: nat, q: nat, b: nat)

  /** The bit is taken if the remainder allows it. */
  function Try(s: State): State {
    var t := (s.q + s.b) % WORD;
    if s.r >= t then State(s.r - t, (t + s.b) % WORD, s.b) else s
  }

  function Step(s: State): State {
    var n := Try(s);
    State(2 * n.r % WORD, n.q, n.b / 2)
  }

  /** The registers after `n` steps. */
  function After(v: nat, n: nat): State {
    if n == 0 then State(v, 0, 0x4000_0000) else Step(After(v, n - 1))
  }

  /** The highest bit of the remainder is lost in step `n`. */
  predicate Loses(v: nat, n: nat) {
    Try(After(v, n)).r >= HALF
  }

  /** It is lost in some step before the last. */
  ghost predicate Overflows(v: nat) {
    exists n :: 0 <= n < STEPS - 1 && Loses(v, n)
  }

  /** `fix16_sqrt`. */
  method Sqrt(value: nat) returns (q: nat)
    requires value < HALF
    ensures IsRoot(value, q) <==> RemaindersFit(value)
    ensures value < 0x4000_0000 ==> IsRoot(value, q)
  {
    ghost var n := STEPS;
    q := Iterate(value, n);
    q := q / 256;
    ExactRoot(value, n);
    OverflowsExactly(value);
    if value < 0x4000_0000 { SmallRootsAreExact(value, n); }
  }

  /** The loop. */
  method Iterate(value: nat, ghost n: nat) returns (q: nat)
    requires n == STEPS
    ensures q == After(value, n).q
  {
    var r: nat, b: nat := value, 0x4000_0000;
    ghost var i: nat := 0;
    q := 0;
    BitValues();
    while b > 0x40
      invariant i <= n && State(r, q, b) == After(value, i) && b == Pow2(30 - i)
      decreases b
    {
      BitBounds(i);
      r, q, b := Turn(r, q, b);
      i := i + 1;
    }
    if i < n { BitBounds(i); }
  }

  method Turn(r: nat, q: nat, b: nat) returns (r': nat, q': nat, b': nat)
    ensures State(r', q', b') == Step(State(r, q, b)) && b' == b / 2
  {
    r', q' := r, q;
    var t := (q + b) % WORD;
    if r >= t {
      r' := r - t;
      q' := (t + b) % WORD;
    }
    r' := 2 * r' % WORD;
    b' := b / 2;
  }

  /** The bit of step `n`. */
  lemma {:induction false} BitBounds(n: nat)
    requires n <= STEPS
    ensures n < STEPS ==> 128 <= Pow2(30 - n) && Pow2(30 - n) == 2 * Pow2(30 - n - 1)
    ensures n < STEPS - 1 ==> 256 <= Pow2(30 - n)
    ensures n >= 1 ==> Pow2(30 - n) <= 0x2000_0000
    ensures n == STEPS ==> Pow2(30 - n) == 64
  {
    BitValues();
    if n < STEPS { Pow2Monotone(7, 30 - n); }
    if n < STEPS - 1 { Pow2Monotone(8, 30 - n); }
    if n >= 1 { Pow2Monotone(30 - n, 29); }
  }

  lemma {:induction false} BitValues()
    ensures Pow2(6) == 64 && Pow2(7) == 128 && Pow2(8) == 256 && Pow2(29) == 0x2000_0000 && Pow2(30) == 0x4000_0000
  {
    assert Pow2(5) == 32 && Pow2(10) == 1024;
    Pow2Sum(10, 10);
    Pow2Sum(20, 9);
    Pow2Sum(20, 10);
  }

  // ---------------------------------------------------------------- one step

  /** The value that the squares are compared with. */
  function Scaled(v: nat): nat {
    v * 0x4000_0000
  }

  /**
   With the bit `b`, the root so far is `m`: the remainder accounts for the value, up to `lost`, which
   is what overflows took away.
   */
  ghost predicate Tracks(v: nat, s: State, m: nat, lost: nat) {
    s.q == 4 * (s.b * m) && s.r * s.b + lost + 4 * ((s.b * m) * (s.b * m)) == Scaled(v)
  }

  /** A square below the value is the square of a small number. */
  lemma SmallRoot(x: nat, v: nat)
    requires v < HALF && 4 * (x * x) <= Scaled(v)
    ensures 4 * x < 3037000500
  {
    if x >= 759250125 {
      MulMonotone(759250125, x, x);
    }
  }

  /** A bit that is taken makes the root odd, one that is not makes it even. */
  function Grown(s: State, m: nat): nat {
    if s.r >= s.q + s.b then 2 * m + 1 else 2 * m
  }

  lemma TakenSquare(b: nat, m: nat)
    ensures var x := b * m; var y := b * (2 * m + 1);
      y == 2 * x + b && y * y == 4 * (x * x) + b * (4 * x + b)
  {
    var x := b * m;
    assert b * (2 * m + 1) == 2 * x + b;
    assert (2 * x + b) * (2 * x + b) == 4 * (x * x) + b * (4 * x + b);
  }

  lemma EvenSquare(b: nat, m: nat)
    ensures var x := b * m; var y := b * (2 * m); y == 2 * x && y * y == 4 * (x * x)
  {
    var x := b * m;
    assert b * (2 * m) == 2 * x;
    assert (2 * x) * (2 * x) == 4 * (x * x);
  }

  /** No word wraps around before the doubling. */
  lemma TryPlain(s: State)
    requires s.q + s.b < WORD && (s.r >= s.q + s.b ==> s.q + 2 * s.b < WORD)
    ensures Try(s) == if s.r >= s.q + s.b then State(s.r - (s.q + s.b), s.q + 2 * s.b, s.b) else s
  {
  }

  /** Before the doubling: the remainder accounts for the new root. */
  ghost predicate TryOk(v: nat, s: State, m: nat, lost: nat) {
    var n, g := Try(s), s.b * Grown(s, m);
    n.b == s.b && n.q == 2 * g && n.r * s.b + lost + g * g == Scaled(v)
  }

  lemma {:induction false} TryTracks(v: nat, s: State, m: nat, lost: nat)
    requires v < HALF && Tracks(v, s, m, lost) && (s.b <= 0x2000_0000 || (m == 0 && s.b == 0x4000_0000))
    ensures TryOk(v, s, m, lost)
  {
    SmallRoot(s.b * m, v);
    if s.r >= s.q + s.b { TryTaken(v, s, m, lost); } else { TrySkipped(v, s, m, lost); }
  }

  lemma {:induction false} TryTaken(v: nat, s: State, m: nat, lost: nat)
    requires v < HALF && Tracks(v, s, m, lost) && s.q + s.b < WORD && s.r >= s.q + s.b
    ensures TryOk(v, s, m, lost)
  {
    var b, x, y := s.b, s.b * m, s.b * (2 * m + 1);
    TakenSquare(b, m);
    TakenRemainder(s.r, b, 4 * x + b, lost, 4 * (x * x), y * y, Scaled(v));
    SmallHalf(y, v);
    TryPlain(s);
  }

  lemma {:induction false} TrySkipped(v: nat, s: State, m: nat, lost: nat)
    requires Tracks(v, s, m, lost) && s.q + s.b < WORD && s.r < s.q + s.b
    ensures TryOk(v, s, m, lost)
  {
    EvenSquare(s.b, m);
    TryPlain(s);
  }

  lemma TakenRemainder(r: nat, b: nat, t: nat, lost: nat, old4: nat, new4: nat, value: nat)
    requires t <= r && r * b + lost + old4 == value && new4 == old4 + b * t
    ensures (r - t) * b + lost + new4 == value
  {
    assert (r - t) * b == r * b - t * b;
  }

  lemma SmallHalf(y: nat, v: nat)
    requires v < HALF && y * y <= Scaled(v)
    ensures 2 * y < 3037000500
  {
    if y >= 1518500250 {
      MulMonotone(1518500250, y, y);
    }
  }

  // ---------------------------------------------------------------- all steps

  /** The root after `n` steps. */
  function Root(v: nat, n: nat): nat {
    if n == 0 then 0 else Grown(After(v, n - 1), Root(v, n - 1))
  }

  /** What overflows took away in the first `n` steps. */
  function Lost(v: nat, n: nat): nat {
    if n == 0 then 0 else Lost(v, n - 1) + if Loses(v, n - 1) then HALF * After(v, n - 1).b else 0
  }

  /** A wider root would be too wide. */
  ghost predicate Tight(v: nat, b: nat, m: nat) {
    Scaled(v) < 4 * ((b * (m + 1)) * (b * (m + 1)))
  }

  lemma HalfBit(b: nat, c: nat, m: nat)
    requires b == 2 * c
    ensures b * m == 2 * (c * m) && (b * m) * (b * m) == 4 * ((c * m) * (c * m))
  {
    var x := c * m;
    assert b * m == 2 * x;
    assert (2 * x) * (2 * x) == 4 * (x * x);
  }

  lemma Doubled(r: nat, b: nat, c: nat, r': nat)
    requires b == 2 * c && r < WORD && r' == 2 * r % WORD
    ensures r' * c + (if r >= HALF then HALF * b else 0) == r * b
  {
    if r >= HALF {
      assert r' == 2 * r - WORD;
      assert (2 * r - WORD) * c == 2 * r * c - WORD * c;
    } else {
      assert r' == 2 * r;
    }
  }

  lemma {:induction false} StepTracks(v: nat, s: State, m: nat, lost: nat, c: nat)
    requires TryOk(v, s, m, lost) && s.b == 2 * c && Try(s).r < WORD
    ensures Tracks(v, Step(s), Grown(s, m), lost + if Try(s).r >= HALF then HALF * s.b else 0) && Step(s).b == c
  {
    var n, g := Try(s), Grown(s, m);
    HalfBit(s.b, c, g);
    Doubled(n.r, s.b, c, Step(s).r);
  }

  /** The root stays tight as long as nothing is lost. */
  lemma {:induction false} StepTight(v: nat, s: State, m: nat, c: nat)
    requires Tracks(v, s, m, 0) && Tight(v, s.b, m) && s.b == 2 * c
    ensures Tight(v, c, Grown(s, m))
  {
    var b := s.b;
    HalfBit(b, c, Grown(s, m) + 1);
    if s.r >= s.q + b {
      EvenSquare(b, m + 1);
      assert 2 * (m + 1) == 2 * m + 1 + 1;
    } else {
      var x := b * m;
      TakenSquare(b, m);
      RestIsSmall(s.r, b, 4 * x + b);
    }
  }

  lemma RestIsSmall(r: nat, b: nat, t: nat)
    requires r < t && b > 0
    ensures r * b < b * t
  {
    MulMonotone(r + 1, t, b);
    assert (r + 1) * b == r * b + b;
  }

  /** The state of things after `n` steps, as far as anything can be said. */
  ghost predicate Sound(v: nat, n: nat)
    requires n <= STEPS
  {
    var s, m, lost := After(v, n), Root(v, n), Lost(v, n);
    && s.b == Pow2(30 - n) && s.r < WORD && Tracks(v, s, m, lost) && (lost == 0 ==> Tight(v, s.b, m))
    && (n == 0 ==> m == 0)
  }

  lemma {:induction false} SoundStart(v: nat)
    requires v < HALF
    ensures Sound(v, 0)
  {
    BitValues();
    assert 0x4000_0000 * 0 == 0;
    assert 0x4000_0000 * (0 + 1) == 0x4000_0000;
  }

  lemma {:induction false} SoundStep(v: nat, n: nat)
    requires v < HALF && n < STEPS && Sound(v, n)
    ensures Sound(v, n + 1) && TryOk(v, After(v, n), Root(v, n), Lost(v, n))
  {
    var s, m, lost, c := After(v, n), Root(v, n), Lost(v, n), Pow2(30 - n - 1);
    BitBounds(n);
    BitValues();
    TryTracks(v, s, m, lost);
    StepTracks(v, s, m, lost, c);
    if lost == 0 { StepTight(v, s, m, c); }
  }

  lemma {:induction false} SoundAlways(v: nat, n: nat)
    requires v < HALF && n <= STEPS
    ensures Sound(v, n)
  {
    if n == 0 {
      SoundStart(v);
    } else {
      SoundAlways(v, n - 1);
      SoundStep(v, n - 1);
    }
  }

  /** What is lost before the last step is lost in bulk. */
  lemma {:induction false} LostInBulk(v: nat, n: nat)
    requires v < HALF && n < STEPS
    ensures Lost(v, n) > 0 <==> exists k :: 0 <= k < n && Loses(v, k)
    ensures Lost(v, n) > 0 ==> Lost(v, n) >= HALF * 256
  {
    if n > 0 {
      LostInBulk(v, n - 1);
      SoundAlways(v, n - 1);
      BitBounds(n - 1);
      MulMonotone(256, After(v, n - 1).b, HALF);
    }
  }

  /** The integer square root of a fixed point number, as a fixed point number. */
  ghost predicate IsRoot(v: nat, q: nat) {
    q * q <= v * 65536 < (q + 1) * (q + 1)
  }

  lemma Squares(m: nat)
    ensures (128 * m) * (128 * m) == 16384 * (m * m)
  {
  }

  /** The result of the last step, `n`. */
  lemma {:induction false} LastStep(v: nat, n: nat)
    requires v < HALF && n + 1 == STEPS
    ensures var m := Root(v, n + 1);
      && After(v, n + 1).q / 256 == m && 256 * m < 3037000500
      && 16384 * (m * m) + Lost(v, n) <= Scaled(v)
      && (Lost(v, n) == 0 ==> Scaled(v) < 16384 * ((m + 1) * (m + 1)))
  {
    SoundAlways(v, n);
    SoundStep(v, n);
    BitBounds(n);
    assert Pow2(30 - n) == 128 by { BitValues(); }
    LastRoot(v, After(v, n), Root(v, n), Lost(v, n));
  }

  lemma {:induction false} LastRoot(v: nat, s: State, m: nat, lost: nat)
    requires v < HALF && s.b == 128 && Tracks(v, s, m, lost) && TryOk(v, s, m, lost) && (lost == 0 ==> Tight(v, 128, m))
    ensures var g := Grown(s, m);
      && Step(s).q / 256 == g && 256 * g < 3037000500 && 16384 * (g * g) + lost <= Scaled(v)
      && (lost == 0 ==> Scaled(v) < 16384 * ((g + 1) * (g + 1)))
  {
    var g := Grown(s, m);
    Squares(g);
    SmallHalf(128 * g, v);
    if lost == 0 {
      StepTight(v, s, m, 64);
      LastTight(v, g);
    }
  }

  lemma LastTight(v: nat, g: nat)
    requires Tight(v, 64, g)
    ensures Scaled(v) < 16384 * ((g + 1) * (g + 1))
  {
    var x := g + 1;
    assert (64 * x) * (64 * x) == 4096 * (x * x);
  }

  lemma RootDecided(v: nat, m: nat, lost: nat)
    requires 256 * m < 3037000500 && 16384 * (m * m) + lost <= Scaled(v)
    requires lost == 0 ==> Scaled(v) < 16384 * ((m + 1) * (m + 1))
    requires lost > 0 ==> lost >= HALF * 256
    ensures IsRoot(v, m) <==> lost == 0
  {
    assert Scaled(v) == 16384 * (v * 65536);
    assert (m + 1) * (m + 1) == m * m + 2 * m + 1;
  }

  /**
   The root is exact if and only if the remainder keeps its highest bit in every step before the last.
   */
  lemma {:induction false} ExactRoot(v: nat, n: nat)
    requires v < HALF && n == STEPS
    ensures IsRoot(v, After(v, n).q / 256) <==> !Overflows(v)
  {
    LastStep(v, n - 1);
    LostInBulk(v, n - 1);
    RootDecided(v, Root(v, n), Lost(v, n - 1));
  }

  // ---------------------------------------------------------------- the condition on the value

  /** The root of the value with the bits below `b` cut off is `b` times `g`. */
  ghost predicate CutRoot(v: nat, b: nat, g: nat) {
    (b * g) * (b * g) <= Scaled(v) < (b * (g + 1)) * (b * (g + 1))
  }

  /** What the root cut off at the bit of step `n` leaves of the value is less than 2^31 times the bit. */
  ghost predicate RemainderFits(v: nat, n: nat)
    requires n < STEPS
  {
    var b := Pow2(30 - n);
    forall g: nat :: CutRoot(v, b, g) ==> Scaled(v) - (b * g) * (b * g) < HALF * b
  }

  ghost predicate RemaindersFit(v: nat) {
    forall n :: 0 <= n < STEPS - 1 ==> RemainderFits(v, n)
  }

  lemma CutRootIsOne(v: nat, b: nat, g: nat, h: nat)
    requires CutRoot(v, b, g) && CutRoot(v, b, h)
    ensures g == h
  {
    if g < h { NotBoth(v, b, g, h); }
    if h < g { NotBoth(v, b, h, g); }
  }

  lemma NotBoth(v: nat, b: nat, g: nat, h: nat)
    requires g < h && CutRoot(v, b, g)
    ensures !CutRoot(v, b, h)
  {
    var x, y := b * (g + 1), b * h;
    MulMonotone(g + 1, h, b);
    MulMonotone(x, y, x);
    MulMonotone(x, y, y);
  }

  /** As long as nothing was lost, the registers hold the root cut off and what it leaves. */
  lemma {:induction false} CutRootIs(v: nat, n: nat)
    requires v < HALF && n < STEPS && Lost(v, n) == 0
    ensures var b, g, r := Pow2(30 - n), Root(v, n + 1), Try(After(v, n)).r;
      CutRoot(v, b, g) && r * b == Scaled(v) - (b * g) * (b * g) && b > 0
  {
    SoundAlways(v, n);
    SoundStep(v, n);
    BitBounds(n);
    var s, c := After(v, n), Pow2(30 - n - 1);
    StepTight(v, s, Root(v, n), c);
    CutRootOf(v, s.b, c, Root(v, n + 1), Try(s).r);
  }

  lemma CutRootOf(v: nat, b: nat, c: nat, g: nat, r: nat)
    requires b == 2 * c && Tight(v, c, g) && r * b + (b * g) * (b * g) == Scaled(v)
    ensures CutRoot(v, b, g)
  {
    HalfBit(b, c, g + 1);
  }

  lemma BelowTimes(r: nat, h: nat, b: nat)
    requires b > 0
    ensures r < h <==> r * b < h * b
  {
    if r < h {
      MulMonotone(r + 1, h, b);
      assert (r + 1) * b == r * b + b;
    } else {
      MulMonotone(h, r, b);
    }
  }

  lemma {:induction false} LosesExactly(v: nat, n: nat)
    requires v < HALF && n < STEPS && Lost(v, n) == 0
    ensures Loses(v, n) <==> !RemainderFits(v, n)
  {
    var b, g, r := Pow2(30 - n), Root(v, n + 1), Try(After(v, n)).r;
    CutRootIs(v, n);
    BelowTimes(r, HALF, b);
    forall h: nat | CutRoot(v, b, h) ensures h == g { CutRootIsOne(v, b, g, h); }
  }

  /** The first step that loses the highest bit is the first whose remainder does not fit. */
  lemma {:induction false} LostExactly(v: nat, n: nat)
    requires v < HALF && n < STEPS
    ensures Lost(v, n) > 0 <==> exists k :: 0 <= k < n && !RemainderFits(v, k)
  {
    if n > 0 {
      LostExactly(v, n - 1);
      SoundAlways(v, n - 1);
      BitBounds(n - 1);
      if Lost(v, n - 1) == 0 { LosesExactly(v, n - 1); }
    }
  }

  lemma {:induction false} OverflowsExactly(v: nat)
    requires v < HALF
    ensures Overflows(v) <==> !RemaindersFit(v)
  {
    LostExactly(v, STEPS - 1);
    LostInBulk(v, STEPS - 1);
  }

  // ---------------------------------------------------------------- when nothing overflows

  /** Below 2^30 the root has at most as many bits as steps were made. */
  lemma {:induction false} RootFits(x: nat, m: nat, b: nat, p: nat, v: nat)
    requires v < 0x4000_0000 && b * p == 0x4000_0000 && x == b * m && x * x <= Scaled(v) && b > 0
    ensures m < p
  {
    if m >= p {
      MulMonotone(p, m, b);
      assert b * m >= b * p;
      MulMonotone(0x4000_0000, x, x);
    }
  }

  lemma SmallRemainder(r: nat, b: nat, m: nat, value: nat)
    requires b > 0 && r * b + (b * m) * (b * m) == value < (b * (m + 1)) * (b * (m + 1))
    ensures r < b * (2 * m + 1)
  {
    var x := b * m;
    assert b * (m + 1) == x + b;
    assert (x + b) * (x + b) == x * x + b * (2 * x + b);
    assert 2 * x + b == b * (2 * m + 1);
    var t := b * (2 * m + 1);
    if r >= t { MulMonotone(t, r, b); }
  }

  lemma BelowHalf(b: nat, m: nat, p: nat)
    requires b > 0 && m < p && b * p == 0x4000_0000
    ensures b * (2 * m + 1) < HALF
  {
    MulMonotone(m + 1, p, b);
    assert b * (2 * m + 1) == 2 * ((m + 1) * b) - b;
  }

  /** Below 2^30 no step loses anything. */
  lemma {:induction false} NoLoss(v: nat, n: nat)
    requires v < 0x4000_0000 && n < STEPS && Lost(v, n) == 0
    ensures !Loses(v, n)
  {
    SoundAlways(v, n);
    SoundStep(v, n);
    BitBounds(n);
    var b, p := Pow2(30 - n), Pow2(n);
    assert b * p == 0x4000_0000 by {
      Pow2Sum(30 - n, n);
      BitValues();
    }
    RemainderStays(v, After(v, n), Root(v, n), Pow2(30 - n - 1), p);
  }

  lemma {:induction false} RemainderStays(v: nat, s: State, m: nat, c: nat, p: nat)
    requires v < 0x4000_0000 && Tracks(v, s, m, 0) && TryOk(v, s, m, 0) && Tight(v, s.b, m)
    requires s.b == 2 * c > 0 && s.b * p == 0x4000_0000
    ensures Try(s).r < HALF
  {
    var g := Grown(s, m);
    assert Scaled(v) < (s.b * (g + 1)) * (s.b * (g + 1)) by {
      StepTight(v, s, m, c);
      HalfBit(s.b, c, g + 1);
    }
    RootFits(s.b * g, g, s.b, p, v);
    SmallRemainder(Try(s).r, s.b, g, Scaled(v));
    BelowHalf(s.b, g, p);
  }

  lemma {:induction false} NothingLost(v: nat, n: nat)
    requires v < 0x4000_0000 && n < STEPS
    ensures Lost(v, n) == 0
  {
    if n > 0 {
      NothingLost(v, n - 1);
      NoLoss(v, n - 1);
    }
  }

  /** Below 2^30, which is 16384 in fixed point, every root is exact. */
  lemma {:induction false} SmallRootsAreExact(v: nat, n: nat)
    requires v < 0x4000_0000 && n == STEPS
    ensures IsRoot(v, After(v, n).q / 256)
  {
    NothingLost(v, n - 1);
    LostInBulk(v, n - 1);
    ExactRoot(v, n);
  }

  /** The root of 24576 in fixed point is not. */
  lemma {:induction false} LargeRootIsNot(n: nat)
    requires n == STEPS
    ensures !RemaindersFit(0x6000_0000) && !IsRoot(0x6000_0000, After(0x6000_0000, n).q / 256)
  {
    var v := 0x6000_0000;
    assert After(v, 0) == State(0x6000_0000, 0, 0x4000_0000);
    assert After(v, 1) == State(0x4000_0000, 0x8000_0000, 0x2000_0000);
    assert After(v, 2) == State(0x8000_0000, 0x8000_0000, 0x1000_0000);
    assert Loses(v, 2);
    ExactRoot(v, n);
    OverflowsExactly(v);
  }
}
