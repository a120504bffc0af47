/**
 * The body of the command-line driver after the options: the checks made before
 * any file is read, the schedule of harmonic modes, the names of the pictures
 * written, and the frame loop that accumulates the modes of each frame and then
 * merges, draws and writes it.
 *
 * The floating-point projection onto the basis enters as two coefficient
 * functions, and the loading of the source picture and the merge, canvas,
 * draw and write of every frame enter as outcomes given in advance.
 */
module MiniFourierMain {
  import opened Ints
  import opened DoublesList
  import opened MiniFourier

  // ---------------------------------------------------------------------------
  // The schedule of modes
  // ---------------------------------------------------------------------------

  /** The integer options that decide which modes each frame draws. */
  datatype Plan = Plan(start: nat, increment: nat, quad: nat, pictures: nat)

  function PlanOf(a: Args): Plan
  {
    Plan(a.startingMode.value, a.modeIncrement.value, a.modeQuad.value, a.pictures.value)
  }

  /** The largest mode the program accepts: six decimal digits. */
  const MaxMode: nat := 999999

  /** The size of the buffer that receives the name of each picture. */
  const NameBuffer: nat := 256

  /** The bound on the modes of a plan, as `main` computes it before the frame loop. */
  function LastMode(p: Plan): (r: nat)
    ensures r >= p.start + p.pictures * p.increment
  {
    MulMono(p.increment, p.pictures * p.quad + p.increment, p.pictures);
    assert p.increment * p.pictures == p.pictures * p.increment;
    assert (p.pictures * p.quad + p.increment) * p.pictures == p.pictures * (p.pictures * p.quad + p.increment);
    p.pictures * (p.pictures * p.quad + p.increment) + p.start
  }

  /** The step from frame `k` to frame `k + 1`: it grows by the quadratic step every frame. */
  function Gap(p: Plan, k: nat): (g: nat)
    ensures g >= p.increment
  {
    if k == 0 then p.increment else Gap(p, k - 1) + p.quad
  }

  /** The mode drawn at frame `k`: the starting mode, then one step per frame. */
  function CMode(p: Plan, k: nat): (r: nat)
    ensures r >= p.start
    ensures p.increment >= 1 ==> r >= p.start + k
  {
    if k == 0 then p.start else CMode(p, k - 1) + Gap(p, k - 1)
  }

  /** The triangular number k(k-1)/2. */
  function Tri(k: nat): nat
  {
    if k == 0 then 0 else Tri(k - 1) + (k - 1)
  }

  /** One more copy of `c` in a product: the step of the induction that puts a frame's mode in closed form. */
  lemma MulSucc(a: nat, c: nat)
    ensures (a + 1) * c == a * c + c
  {
  }

  /** Multiplication distributes over a sum, as the closed form and the bound on the modes need. */
  lemma MulAdd(c: nat, a: nat, b: nat)
    ensures c * (a + b) == c * a + c * b
  {
  }

  /** A product grows with its first factor, as bounding each frame's mode by the last one needs. */
  lemma MulMono(a: nat, b: nat, c: nat)
    requires a <= b
    ensures a * c <= b * c
  {
  }

  lemma {:induction false} TriTwice(k: nat)
    ensures 2 * Tri(k) + k == k * k
  {
    if k > 0 {
      TriTwice(k - 1);
      MulSucc(k - 1, k - 1);
      MulSucc(k - 1, k);
      assert k * (k - 1) == (k - 1) * k;
    }
  }

  /** The step after frame k is the increment plus k times the quadratic step, as the loop adds it. */
  lemma {:induction false} GapClosedForm(p: Plan, k: nat)
    ensures Gap(p, k) == p.increment + k * p.quad
  {
    if k > 0 {
      GapClosedForm(p, k - 1);
      MulSucc(k - 1, p.quad);
    }
  }

  /** At frame k the mode is start + k·increment + quad·k(k-1)/2. */
  lemma {:induction false} CModeClosedForm(p: Plan, k: nat)
    ensures CMode(p, k) == p.start + k * p.increment + p.quad * Tri(k)
  {
    if k > 0 {
      CModeClosedForm(p, k - 1);
      GapClosedForm(p, k - 1);
      MulSucc(k - 1, p.increment);
      MulAdd(p.quad, Tri(k - 1), k - 1);
      assert (k - 1) * p.quad == p.quad * (k - 1);
    }
  }

  /** Starting at 0 with increment 2 and quadratic step 1, the frames draw modes 0, 2 and 5. */
  lemma CModeExample()
    ensures CMode(Plan(0, 2, 1, 3), 0) == 0
    ensures CMode(Plan(0, 2, 1, 3), 1) == 2
    ensures CMode(Plan(0, 2, 1, 3), 2) == 5
  {
  }

  /** The triangular number of a frame up to `n` is at most `n * n`. */
  lemma TriBelow(k: nat, n: nat)
    requires k <= n
    ensures Tri(k) <= n * n
  {
    TriTwice(k);
    MulMono(k, n, k);
    MulMono(k, n, n);
    assert n * k == k * n;
  }

  /** The closed form of a frame's mode stays below the bound when the frame and the triangle do. */
  lemma ClosedFormBelow(start: nat, increment: nat, quad: nat, n: nat, k: nat, t: nat)
    requires k <= n && t <= n * n
    ensures start + k * increment + quad * t <= n * (n * quad + increment) + start
  {
    MulMono(k, n, increment);
    MulMono(t, n * n, quad);
    MulAdd(n, n * quad, increment);
    assert n * (n * quad) == (n * n) * quad;
    assert quad * t == t * quad;
  }

  /** No frame up to `pictures` goes beyond the bound computed before the loop. */
  lemma CModeBound(p: Plan, k: nat)
    requires k <= p.pictures
    ensures CMode(p, k) <= LastMode(p)
  {
    CModeClosedForm(p, k);
    TriBelow(k, p.pictures);
    ClosedFormBelow(p.start, p.increment, p.quad, p.pictures, k, Tri(k));
  }

  /** With an increment of at least 1 every frame draws a higher mode than the one before. */
  lemma {:induction false} CModeIncreasing(p: Plan, j: nat, k: nat)
    requires p.increment >= 1 && j <= k
    ensures CMode(p, j) + (k - j) <= CMode(p, k)
    decreases k
  {
    if j < k {
      CModeIncreasing(p, j, k - 1);
    }
  }

  // ---------------------------------------------------------------------------
  // Decimal numbers and picture names
  // ---------------------------------------------------------------------------

  function DigitChar(d: nat): char
    requires d < 10
  {
    (d + '0' as int) as char
  }

  /** The value of a decimal digit; any other character counts as 0. */
  function DigitValue(c: char): nat
  {
    if '0' <= c <= '9' then c as int - '0' as int else 0
  }

  /**
   * `n` in decimal with at least `width` digits, padded with zeros on the
   * left, as `%0*zu` prints it: the last digit, after the others.
   */
  function Padded(n: nat, width: nat): string
    decreases n + width
  {
    (if n < 10 && width <= 1 then "" else Padded(n / 10, if width == 0 then 0 else width - 1))
    + [DigitChar(n % 10)]
  }

  /** The number a string of decimal digits spells. */
  function ValueOf(s: string): nat
    decreases |s|
  {
    if s == [] then 0 else ValueOf(s[..|s| - 1]) * 10 + DigitValue(s[|s| - 1])
  }

  function Pow10(w: nat): (p: nat)
    ensures p >= 1
  {
    if w == 0 then 1 else 10 * Pow10(w - 1)
  }

  /** Reading back the padded digits of `n` gives `n`. */
  lemma {:induction false} PaddedValue(n: nat, width: nat)
    ensures ValueOf(Padded(n, width)) == n
    decreases n + width
  {
    var s := Padded(n, width);
    assert s[..|s| - 1] == if n < 10 && width <= 1 then "" else Padded(n / 10, if width == 0 then 0 else width - 1);
    if !(n < 10 && width <= 1) {
      PaddedValue(n / 10, if width == 0 then 0 else width - 1);
    }
  }

  /** A number below 10^width takes exactly `width` digits. */
  lemma {:induction false} PaddedLength(n: nat, width: nat)
    requires width >= 1 && n < Pow10(width)
    ensures |Padded(n, width)| == width
    decreases width
  {
    if !(n < 10 && width <= 1) {
      assert Pow10(1) == 10;
      PaddedLength(n / 10, width - 1);
    }
  }

  /** A number of at least 10^m takes more than m digits, whatever the width asked for. */
  lemma {:induction false} PaddedAtLeast(n: nat, width: nat, m: nat)
    requires Pow10(m) <= n
    ensures |Padded(n, width)| >= m + 1
    decreases m
  {
    if m > 0 {
      PaddedAtLeast(n / 10, if width == 0 then 0 else width - 1, m - 1);
    }
  }

  /** The padded decimal reads back as the number, and a mode of six digits at most takes exactly six. */
  lemma PaddedRoundTrip(n: nat)
    ensures ValueOf(Padded(n, 6)) == n
    ensures n <= MaxMode ==> |Padded(n, 6)| == 6
  {
    PaddedValue(n, 6);
    if n <= MaxMode {
      assert Pow10(6) == 1000000;
      PaddedLength(n, 6);
    }
  }

  /**
   * The name of the picture of mode `mode`: the prefix cut to `keep`
   * characters, an underscore, the mode in six digits at least, `.bmp`.
   */
  function FileName(prefix: string, keep: nat, mode: nat): (r: string)
    ensures var n := if |prefix| <= keep then |prefix| else keep;
            |r| > n + 5 && r[..n] == prefix[..n] && r[n] == '_' && r[|r| - 4..] == ".bmp"
  {
    (if |prefix| <= keep then prefix else prefix[..keep]) + "_" + Padded(mode, 6) + ".bmp"
  }

  /** A name for a mode of six digits at most takes no more than `keep` + 11 characters and ends in `.bmp`. */
  lemma FileNameShape(prefix: string, keep: nat, mode: nat)
    requires mode <= MaxMode
    ensures |FileName(prefix, keep, mode)| <= keep + 11
    ensures FileName(prefix, keep, mode)[|FileName(prefix, keep, mode)| - 4..] == ".bmp"
  {
    PaddedRoundTrip(mode);
  }

  /** Two modes of six digits at most get different names. */
  lemma FileNameInjective(prefix: string, keep: nat, m1: nat, m2: nat)
    requires m1 <= MaxMode && m2 <= MaxMode
    requires FileName(prefix, keep, m1) == FileName(prefix, keep, m2)
    ensures m1 == m2
  {
    var head := (if |prefix| <= keep then prefix else prefix[..keep]) + "_";
    var d1, d2 := Padded(m1, 6), Padded(m2, 6);
    PaddedRoundTrip(m1);
    PaddedRoundTrip(m2);
    var name := FileName(prefix, keep, m1);
    assert name == head + d1 + ".bmp";
    assert FileName(prefix, keep, m2) == head + d2 + ".bmp";
    assert d1 == name[|head|..|head| + 6];
    assert d2 == name[|head|..|head| + 6];
  }

  /** The names of the pictures of frames 0 to n-1. */
  function Names(p: Plan, prefix: string, keep: nat, n: nat): (r: seq<string>)
    ensures |r| == n
    ensures forall k :: 0 <= k < n ==> r[k] == FileName(prefix, keep, CMode(p, k))
  {
    if n == 0 then [] else Names(p, prefix, keep, n - 1) + [FileName(prefix, keep, CMode(p, n - 1))]
  }

  /** Frames of a plan with a positive increment and modes of six digits at most never reuse a name. */
  lemma NamesDistinct(p: Plan, prefix: string, keep: nat, n: nat)
    requires p.increment >= 1
    requires n > 0 ==> CMode(p, n - 1) <= MaxMode
    ensures forall i, j :: 0 <= i < j < n ==> Names(p, prefix, keep, n)[i] != Names(p, prefix, keep, n)[j]
  {
    forall i, j | 0 <= i < j < n
      ensures Names(p, prefix, keep, n)[i] != Names(p, prefix, keep, n)[j]
    {
      CModeIncreasing(p, i, j);
      CModeIncreasing(p, j, n - 1);
      if FileName(prefix, keep, CMode(p, i)) == FileName(prefix, keep, CMode(p, j)) {
        FileNameInjective(prefix, keep, CMode(p, i), CMode(p, j));
      }
    }
  }

  // ---------------------------------------------------------------------------
  // The checks before any file is read
  // ---------------------------------------------------------------------------

  /** Why `main` refuses to start. */
  datatype Refusal = TooManyModes | NameTooShort | NotBitmap | NameTooLong | ZeroIncrement

  /** The checks `main` makes on the completed arguments, in order; the first that fails refuses the run. */
  function Validate(a: Args): (r: Option<Refusal>)
    requires a.source.Some?
    ensures r == Some(TooManyModes) <==> LastMode(PlanOf(a)) > MaxMode
    ensures r == None ==> PlanOf(a).increment >= 1 && LastMode(PlanOf(a)) <= MaxMode && Keep(a) + 12 <= NameBuffer
  {
    var source := a.source.value;
    if LastMode(PlanOf(a)) > MaxMode then Some(TooManyModes)
    else if |source| < 4 then Some(NameTooShort)
    else if source[|source| - 4..] != ".bmp" then Some(NotBitmap)
    else if |source| + 7 >= NameBuffer then Some(NameTooLong)
    else if a.modeIncrement.value == 0 then Some(ZeroIncrement)
    else None
  }

  /** The number of characters of the prefix that go into a picture name: the source name without `.bmp`. */
  function Keep(a: Args): nat
    requires a.source.Some?
  {
    if |a.source.value| < 4 then 0 else |a.source.value| - 4
  }

  /**
   * Arguments that pass the checks give a plan whose every frame draws a mode
   * within the bound and of six digits at most, with modes increasing, and
   * every picture name, with its terminating zero, fits the name buffer.
   */
  lemma ValidatedPlan(a: Args, k: nat, mode: nat)
    requires a.source.Some? && a.destinationPrefix.Some?
    requires Validate(a) == None
    ensures PlanOf(a).increment >= 1
    ensures k <= PlanOf(a).pictures ==> CMode(PlanOf(a), k) <= LastMode(PlanOf(a)) <= MaxMode
    ensures mode <= MaxMode ==> |FileName(a.destinationPrefix.value, Keep(a), mode)| + 1 <= NameBuffer
  {
    if k <= PlanOf(a).pictures {
      CModeBound(PlanOf(a), k);
    }
    if mode <= MaxMode {
      FileNameShape(a.destinationPrefix.value, Keep(a), mode);
    }
  }

  const TWO64: int := 0x1_0000_0000_0000_0000

  /** Result of a `size_t` operation: the value modulo 2^64. */
  function Wrap64(x: int): (r: u64)
    ensures 0 <= x < TWO64 ==> r == x
  {
    x % TWO64
  }

  /** Adding a multiple of 2^64 does not change a value modulo 2^64. */
  lemma ModShift64(x: int, k: int)
    ensures (x + k * TWO64) % TWO64 == x % TWO64
  {
  }

  /** Reducing a factor modulo 2^64 first does not change a product modulo 2^64. */
  lemma ModMul64(a: nat, b: nat)
    ensures (a * (b % TWO64)) % TWO64 == (a * b) % TWO64
  {
    var q := b / TWO64;
    assert b == q * TWO64 + b % TWO64;
    assert a * b == a * (b % TWO64) + (a * q) * TWO64;
    ModShift64(a * (b % TWO64), a * q);
  }

  /** Wrapping each step of the bound's computation wraps the exact bound. */
  lemma LastModeMod(p: Plan)
    ensures Wrap64(Wrap64(p.pictures * Wrap64(Wrap64(p.pictures * p.quad) + p.increment)) + p.start) == LastMode(p) % TWO64
  {
    var pq := p.pictures * p.quad;
    var inner := pq + p.increment;
    ModShift64(pq % TWO64 + p.increment, pq / TWO64);
    assert Wrap64(Wrap64(pq) + p.increment) == inner % TWO64;
    ModMul64(p.pictures, inner);
    var prod := p.pictures * inner;
    assert Wrap64(p.pictures * Wrap64(Wrap64(pq) + p.increment)) == prod % TWO64;
    ModShift64(prod % TWO64 + p.start, prod / TWO64);
  }

  /**
   * The bound on the modes exactly as `main` computes it, in `size_t`: each
   * product and sum wraps around modulo 2^64.
   */
  function LastModeAsWritten(p: Plan): (r: u64)
    ensures r == LastMode(p) % TWO64
  {
    LastModeMod(p);
    Wrap64(Wrap64(p.pictures * Wrap64(Wrap64(p.pictures * p.quad) + p.increment)) + p.start)
  }

  /** While the bound fits in 64 bits, the computation of `main` gives it exactly. */
  lemma LastModeNoWrap(p: Plan)
    requires p.increment < TWO64 && LastMode(p) < TWO64
    ensures LastModeAsWritten(p) == LastMode(p)
  {
    var q := p.pictures * p.quad + p.increment;
    if p.pictures > 0 {
      MulMono(1, p.pictures, q);
      MulMono(1, p.pictures, p.quad);
    }
    assert p.pictures * p.quad <= q < TWO64;
    assert p.pictures * q < TWO64;
  }

  /**
   * With 2^32 pictures and an increment of 2^32 the computed bound wraps to 0
   * and passes the check, while the second frame already draws mode 2^32, whose
   * name takes at least four characters more than the length check allows for.
   */
  lemma LastModeWrapMissed(prefix: string, keep: nat)
    requires keep <= |prefix|
    ensures var p := Plan(0, TWO32, 0, TWO32);
            && LastModeAsWritten(p) <= MaxMode
            && LastMode(p) > MaxMode
            && CMode(p, 1) == TWO32
            && |FileName(prefix, keep, CMode(p, 1))| >= keep + 15
  {
    var p := Plan(0, TWO32, 0, TWO32);
    assert LastModeAsWritten(p) == 0;
    assert Pow10(9) == 1000000000 by {
      assert Pow10(3) == 1000;
      assert Pow10(6) == 1000000;
    }
    PaddedAtLeast(TWO32, 6, 9);
  }

  // ---------------------------------------------------------------------------
  // The frame loop
  // ---------------------------------------------------------------------------

  /**
   * The steps of a frame that can fail, in the order the loop takes them.
   * `Draw` is kept for completeness: `draw_points_list` is negative only for
   * a missing bitmap or list, and the frame has just made both, so in the
   * program the drawing step never fails.
   */
  datatype Stage = Merge | Create | Draw | Write

  /**
   * The frames that fail, each with the first of its steps that fails: the
   * merge of the points, the canvas, the drawing or the file write.
   */
  type Failures = map<nat, Stage>

  predicate FrameFails(fails: Failures, k: nat)
  {
    k in fails
  }

  /** The first frame from `k` on that fails, or `pictures` when none does. */
  function StopFrom(fails: Failures, pictures: nat, k: nat): (s: nat)
    requires k <= pictures
    ensures k <= s <= pictures
    ensures s < pictures ==> FrameFails(fails, s)
    ensures forall j :: k <= j < s ==> !FrameFails(fails, j)
    decreases pictures - k
  {
    if k == pictures then pictures
    else if FrameFails(fails, k) then k
    else StopFrom(fails, pictures, k + 1)
  }

  /** The loop stops at the first failing frame. */
  lemma StopAt(fails: Failures, pictures: nat, k: nat)
    requires k <= pictures
    requires k < pictures ==> FrameFails(fails, k)
    requires forall j :: 0 <= j < k ==> !FrameFails(fails, j)
    ensures StopFrom(fails, pictures, 0) == k
  {
  }

  /** A coefficient handed to `add_base_vector`: the mode and the projection of the source on it. */
  datatype Term = Term(mode: nat, coefficient: real)

  /** The modes 0 to n-1, each with its coefficient read from the list, in increasing order. */
  function Accumulation(n: nat, coeffs: seq<real>): (r: seq<Term>)
    ensures |r| == n
    ensures forall u :: 0 <= u < n ==> r[u] == Term(u, DoubleAt(coeffs, u))
  {
    if n == 0 then [] else Accumulation(n - 1, coeffs) + [Term(n - 1, DoubleAt(coeffs, n - 1))]
  }

  /**
   * The number of modes accumulated when the loop stops at frame `stop`: a
   * failing frame has accumulated its own modes before it fails.
   */
  function Span(p: Plan, stop: nat): nat
  {
    if stop < p.pictures then CMode(p, stop) + 1
    else if p.pictures == 0 then 0
    else CMode(p, p.pictures - 1) + 1
  }

  /** The accumulated modes stay within the coefficient lists. */
  lemma SpanBound(p: Plan, stop: nat)
    requires stop <= p.pictures
    ensures Span(p, stop) <= LastMode(p) + 1
  {
    if stop < p.pictures {
      CModeBound(p, stop);
    } else if p.pictures > 0 {
      CModeBound(p, p.pictures - 1);
    }
  }

  /** The coefficients of the modes below `count`, each the projection of the source on its mode. */
  function Projection(count: nat, coeff: nat -> real): (r: seq<real>)
    ensures |r| == count
    ensures forall i :: 0 <= i < count ==> r[i] == coeff(i)
  {
    if count == 0 then [] else Projection(count - 1, coeff) + [coeff(count - 1)]
  }

  /**
   * The two coefficient lists, of `count` modes each, filled with the scalar
   * products of the X and the Y sequence with every mode.
   */
  method Project(count: nat, coeffX: nat -> real, coeffY: nat -> real) returns (sx: DoublesList, sy: DoublesList)
    ensures fresh(sx.doubles) && fresh(sy.doubles)
    ensures sx.doubles[..] == Projection(count, coeffX) && sy.doubles[..] == Projection(count, coeffY)
  {
    sx := new DoublesList(count);
    sy := new DoublesList(count);
    var i: nat := 0;
    while i < count
      invariant i <= count
      invariant sx.doubles.Length == count && sy.doubles.Length == count
      invariant forall j :: 0 <= j < i ==> sx.doubles[j] == coeffX(j)
      invariant forall j :: 0 <= j < i ==> sy.doubles[j] == coeffY(j)
    {
      SetDouble(sx, i, coeffX(i));
      SetDouble(sy, i, coeffY(i));
      i := i + 1;
    }
    assert sx.doubles[..] == Projection(count, coeffX);
    assert sy.doubles[..] == Projection(count, coeffY);
  }

  /**
   * The inner loop of a frame: hands every mode from `omode` to `cmode` to the
   * accumulators, with the coefficients read from the two lists.
   */
  method Accumulate(sx: DoublesList, sy: DoublesList, omode: nat, cmode: nat, addedX: seq<Term>, addedY: seq<Term>)
    returns (nextX: seq<Term>, nextY: seq<Term>)
    requires omode <= cmode + 1
    requires addedX == Accumulation(omode, sx.doubles[..]) && addedY == Accumulation(omode, sy.doubles[..])
    ensures nextX == Accumulation(cmode + 1, sx.doubles[..]) && nextY == Accumulation(cmode + 1, sy.doubles[..])
  {
    nextX, nextY := addedX, addedY;
    var u := omode;
    while u <= cmode
      invariant omode <= u <= cmode + 1
      invariant nextX == Accumulation(u, sx.doubles[..]) && nextY == Accumulation(u, sy.doubles[..])
    {
      var x := GetDouble(sx, u);
      nextX := nextX + [Term(u, x)];
      var y := GetDouble(sy, u);
      nextY := nextY + [Term(u, y)];
      u := u + 1;
    }
  }

  /**
   * The steps of frame `k` after the accumulation, in order: merge, canvas,
   * drawing, then the name of the picture and its write. The first step that
   * fails ends the frame.
   */
  method Render(fails: Failures, k: nat, prefix: string, keep: nat, cmode: nat) returns (failed: bool, name: string)
    ensures failed == FrameFails(fails, k)
    ensures !failed ==> name == FileName(prefix, keep, cmode)
  {
    name := "";
    failed := k in fails && fails[k] == Merge;
    if !failed {
      failed := k in fails && fails[k] == Create;
    }
    if !failed {
      failed := k in fails && fails[k] == Draw;
    }
    if !failed {
      name := FileName(prefix, keep, cmode);
      failed := k in fails && fails[k] == Write;
    }
  }

  /**
   * What the frame loop leaves: -1 exactly when some frame fails, the names of
   * the pictures of the frames before the first failure, and every mode up to
   * the last one accumulated, with its coefficients.
   */
  predicate Ran(p: Plan, prefix: string, keep: nat, fails: Failures, xs: seq<real>, ys: seq<real>,
                ret: int, written: seq<string>, addedX: seq<Term>, addedY: seq<Term>)
  {
    var stop := StopFrom(fails, p.pictures, 0);
    && ret == (if stop < p.pictures then -1 else 0)
    && written == Names(p, prefix, keep, stop)
    && addedX == Accumulation(Span(p, stop), xs)
    && addedY == Accumulation(Span(p, stop), ys)
  }

  /** The first mode frame k accumulates: the one after the previous frame's. */
  function FirstMode(p: Plan, k: nat): nat
  {
    if k == 0 then 0 else CMode(p, k - 1) + 1
  }

  /**
   * The state of the frame loop before frame `k`: no frame before it failed,
   * `cmode` is its mode and `omode` the first mode not yet accumulated, the
   * modes below it are accumulated and the pictures of frames 0 to k-1 written.
   */
  predicate FramesBefore(p: Plan, prefix: string, keep: nat, fails: Failures, xs: seq<real>, ys: seq<real>,
                         k: nat, omode: nat, cmode: nat, written: seq<string>, addedX: seq<Term>, addedY: seq<Term>)
  {
    && k <= p.pictures
    && (forall j :: 0 <= j < k ==> !FrameFails(fails, j))
    && cmode == CMode(p, k)
    && omode == FirstMode(p, k)
    && omode <= cmode + 1
    && addedX == Accumulation(omode, xs) && addedY == Accumulation(omode, ys)
    && written == Names(p, prefix, keep, k)
  }

  lemma FramesStart(p: Plan, prefix: string, keep: nat, fails: Failures, xs: seq<real>, ys: seq<real>)
    ensures FramesBefore(p, prefix, keep, fails, xs, ys, 0, 0, p.start, [], [], [])
  {
  }

  /** A frame that does not fail accumulates its modes, writes its picture and moves on by one step. */
  lemma FramesNext(p: Plan, prefix: string, keep: nat, fails: Failures, xs: seq<real>, ys: seq<real>,
                   k: nat, omode: nat, cmode: nat, written: seq<string>, addedX: seq<Term>, addedY: seq<Term>,
                   nextX: seq<Term>, nextY: seq<Term>)
    requires FramesBefore(p, prefix, keep, fails, xs, ys, k, omode, cmode, written, addedX, addedY)
    requires k < p.pictures && !FrameFails(fails, k)
    requires nextX == Accumulation(cmode + 1, xs) && nextY == Accumulation(cmode + 1, ys)
    ensures FramesBefore(p, prefix, keep, fails, xs, ys, k + 1, cmode + 1, cmode + Gap(p, k),
                         written + [FileName(prefix, keep, cmode)], nextX, nextY)
  {
  }

  /** The loop ends at frame k, the first that fails, after accumulating its modes. */
  lemma RanUntilFailure(p: Plan, prefix: string, keep: nat, fails: Failures, xs: seq<real>, ys: seq<real>,
                        k: nat, omode: nat, cmode: nat, written: seq<string>, addedX: seq<Term>, addedY: seq<Term>,
                        nextX: seq<Term>, nextY: seq<Term>)
    requires FramesBefore(p, prefix, keep, fails, xs, ys, k, omode, cmode, written, addedX, addedY)
    requires k < p.pictures && FrameFails(fails, k)
    requires nextX == Accumulation(cmode + 1, xs) && nextY == Accumulation(cmode + 1, ys)
    ensures Ran(p, prefix, keep, fails, xs, ys, -1, written, nextX, nextY)
  {
    StopAt(fails, p.pictures, k);
  }

  /** The loop ends after the last frame, none having failed. */
  lemma RanToEnd(p: Plan, prefix: string, keep: nat, fails: Failures, xs: seq<real>, ys: seq<real>,
                 omode: nat, cmode: nat, written: seq<string>, addedX: seq<Term>, addedY: seq<Term>)
    requires FramesBefore(p, prefix, keep, fails, xs, ys, p.pictures, omode, cmode, written, addedX, addedY)
    ensures Ran(p, prefix, keep, fails, xs, ys, 0, written, addedX, addedY)
  {
    StopAt(fails, p.pictures, p.pictures);
  }

  /** The step from frame k to frame k+1 as the loop computes it, which is the gap of the schedule. */
  function Advance(p: Plan, k: nat): (g: nat)
    ensures g == Gap(p, k)
  {
    GapClosedForm(p, k);
    p.increment + k * p.quad
  }

  /**
   * One pass of the frame loop: frame k accumulates its modes, then renders
   * its picture. A failing step leaves the loop's result; otherwise the state
   * is that before frame k + 1.
   */
  method Frame(p: Plan, prefix: string, keep: nat, sx: DoublesList, sy: DoublesList, fails: Failures,
               k: nat, omode: nat, cmode: nat, written: seq<string>, addedX: seq<Term>, addedY: seq<Term>)
    returns (failed: bool, written': seq<string>, nextX: seq<Term>, nextY: seq<Term>, omode': nat, cmode': nat)
    requires k < p.pictures
    requires FramesBefore(p, prefix, keep, fails, sx.doubles[..], sy.doubles[..], k, omode, cmode, written, addedX, addedY)
    ensures failed ==> Ran(p, prefix, keep, fails, sx.doubles[..], sy.doubles[..], -1, written', nextX, nextY)
    ensures !failed ==> FramesBefore(p, prefix, keep, fails, sx.doubles[..], sy.doubles[..], k + 1, omode', cmode',
                                     written', nextX, nextY)
  {
    ghost var xs, ys := sx.doubles[..], sy.doubles[..];
    nextX, nextY := Accumulate(sx, sy, omode, cmode, addedX, addedY);
    var name;
    failed, name := Render(fails, k, prefix, keep, cmode);
    if failed {
      RanUntilFailure(p, prefix, keep, fails, xs, ys, k, omode, cmode, written, addedX, addedY, nextX, nextY);
      return failed, written, nextX, nextY, omode, cmode;
    }
    FramesNext(p, prefix, keep, fails, xs, ys, k, omode, cmode, written, addedX, addedY, nextX, nextY);
    written', omode', cmode' := written + [name], cmode + 1, cmode + Advance(p, k);
  }

  /**
   * The frame loop. Frame k accumulates the modes after the previous frame's
   * up to CMode(k), then merges, draws and writes its picture; the first step
   * that fails ends the loop with -1, and nothing after it is accumulated or
   * written.
   */
  method Frames(p: Plan, prefix: string, keep: nat, sx: DoublesList, sy: DoublesList, fails: Failures)
    returns (ret: int, written: seq<string>, addedX: seq<Term>, addedY: seq<Term>)
    ensures Ran(p, prefix, keep, fails, sx.doubles[..], sy.doubles[..], ret, written, addedX, addedY)
  {
    ghost var xs, ys := sx.doubles[..], sy.doubles[..];
    written, addedX, addedY := [], [], [];
    var omode: nat := 0;
    var cmode: nat := p.start;
    var k: nat := 0;
    FramesStart(p, prefix, keep, fails, xs, ys);
    while k < p.pictures
      invariant FramesBefore(p, prefix, keep, fails, xs, ys, k, omode, cmode, written, addedX, addedY)
    {
      var failed;
      failed, written, addedX, addedY, omode, cmode :=
        Frame(p, prefix, keep, sx, sy, fails, k, omode, cmode, written, addedX, addedY);
      if failed {
        return -1, written, addedX, addedY;
      }
      k := k + 1;
    }
    RanToEnd(p, prefix, keep, fails, xs, ys, omode, cmode, written, addedX, addedY);
    ret := 0;
  }

  // ---------------------------------------------------------------------------
  // The driver
  // ---------------------------------------------------------------------------

  /**
   * The options `main` works with after reading command line `argv`: the
   * options read from a zero state, completed with their defaults. None when
   * `main` shows the help instead: the line does not read as options or a
   * parser refuses one, no source is given, or `--help` is.
   */
  function Configured(conv: Converters, argv: seq<string>): (r: Option<Args>)
    ensures r.Some? ==> r.value.source.Some? && r.value.destinationPrefix.Some? && !r.value.helpSet
  {
    var sp := Split(Arguments(argv));
    var o := ApplyAll(Parser(conv), Zero, sp.tokens);
    if !(o.ok && sp.complete) || o.args.source.None? || o.args.helpSet then None
    else Some(Defaults(o.args))
  }

  /**
   * Reads the options and fills the defaults; a failure of either, or `--help`,
   * means showing the help.
   */
  method ReadArguments(argv: seq<string>, conv: Converters) returns (a: Option<Args>)
    ensures a == Configured(conv, argv)
  {
    var args := new ArgsState();
    var r := args.ParseArgs(argv, conv);
    if r != 0 {
      args.helpSet := true;
    }
    r := args.SetDefaults();
    if r != 0 {
      args.helpSet := true;
    }
    if args.helpSet {
      return None;
    }
    return Some(args.Value());
  }

  /**
   * What `main` cannot compute itself: the conversions of option parameters,
   * whether loading the source picture and preparing the point lists succeeds,
   * the projection of the source on each mode, and the steps of the frames that
   * fail.
   */
  datatype Env = Env(conv: Converters, prepared: bool, coeffX: nat -> real, coeffY: nat -> real, fails: Failures)

  /** What a run leaves: the exit code, the pictures written and the modes handed to the accumulators. */
  datatype Report = Report(ret: int, written: seq<string>, addedX: seq<Term>, addedY: seq<Term>)

  /** A run that stops before the frame loop. */
  const Refused: Report := Report(-1, [], [], [])

  /** The run of `main` on command line `argv`. */
  function Session(argv: seq<string>, env: Env): (r: Report)
    ensures r.ret == 0 || r.ret == -1
    ensures r.written != [] ==> var c := Configured(env.conv, argv); c.Some? && Validate(c.value).None? && env.prepared
  {
    var c := Configured(env.conv, argv);
    if c.None? || Validate(c.value).Some? || !env.prepared then Refused
    else
      var a := c.value;
      var p := PlanOf(a);
      var stop := StopFrom(env.fails, p.pictures, 0);
      Report(if stop < p.pictures then -1 else 0,
             Names(p, a.destinationPrefix.value, Keep(a), stop),
             Accumulation(Span(p, stop), Projection(LastMode(p) + 1, env.coeffX)),
             Accumulation(Span(p, stop), Projection(LastMode(p) + 1, env.coeffY)))
  }

  /**
   * The program: reads the options, makes the checks, loads and prepares the
   * source, projects it on every mode up to the last and runs the frame loop.
   */
  method Run(argv: seq<string>, env: Env) returns (report: Report)
    ensures report == Session(argv, env)
  {
    var c := ReadArguments(argv, env.conv);
    if c.None? {
      return Refused;
    }
    var a := c.value;
    if Validate(a).Some? {
      return Refused;
    }
    if !env.prepared {
      return Refused;
    }
    var p := PlanOf(a);
    var sx, sy := Project(LastMode(p) + 1, env.coeffX, env.coeffY);
    var ret, written, addedX, addedY := Frames(p, a.destinationPrefix.value, Keep(a), sx, sy, env.fails);
    return Report(ret, written, addedX, addedY);
  }

  // ---------------------------------------------------------------------------
  // Properties of a run
  // ---------------------------------------------------------------------------

  /** A plan with modes of more than six digits, or with no increment, is refused before anything is loaded. */
  lemma RefusedBeforeLoading(argv: seq<string>, env: Env, a: Args)
    requires Configured(env.conv, argv) == Some(a)
    requires LastMode(PlanOf(a)) > MaxMode || a.modeIncrement.value == 0
    ensures Session(argv, env) == Refused
  {
    assert Validate(a).Some?;
  }

  /** A run ends with 0 exactly when the options are read and pass the checks, the source loads and no frame fails. */
  lemma SessionResult(argv: seq<string>, env: Env)
    ensures Session(argv, env).ret == 0 || Session(argv, env).ret == -1
    ensures Session(argv, env).ret == 0 <==>
            var c := Configured(env.conv, argv);
            && c.Some? && Validate(c.value).None? && env.prepared
            && forall k :: 0 <= k < c.value.pictures.value ==> !FrameFails(env.fails, k)
  {
  }

  /**
   * The first frame that fails ends the run with -1, after the pictures of the
   * frames before it and the modes up to its own.
   */
  lemma FirstFailure(argv: seq<string>, env: Env, a: Args, k: nat)
    requires Configured(env.conv, argv) == Some(a) && Validate(a).None? && env.prepared
    requires k < PlanOf(a).pictures && FrameFails(env.fails, k)
    requires forall j :: 0 <= j < k ==> !FrameFails(env.fails, j)
    ensures Session(argv, env).ret == -1
    ensures |Session(argv, env).written| == k
    ensures |Session(argv, env).addedX| == |Session(argv, env).addedY| == CMode(PlanOf(a), k) + 1
  {
    StopAt(env.fails, PlanOf(a).pictures, k);
  }

  /** Picture names that end in `.bmp`, fit the name buffer with their terminating zero and are all different. */
  predicate WellNamed(w: seq<string>)
  {
    && (forall i :: 0 <= i < |w| ==> 4 <= |w[i]| && |w[i]| + 1 <= NameBuffer && w[i][|w[i]| - 4..] == ".bmp")
    && (forall i, j :: 0 <= i < j < |w| ==> w[i] != w[j])
  }

  /** For options that pass the checks, the names of the pictures of frames 0 to n-1 are well formed. */
  lemma ValidatedNames(a: Args, n: nat)
    requires a.source.Some? && a.destinationPrefix.Some? && Validate(a).None?
    requires n <= PlanOf(a).pictures
    ensures WellNamed(Names(PlanOf(a), a.destinationPrefix.value, Keep(a), n))
  {
    var p, prefix, keep := PlanOf(a), a.destinationPrefix.value, Keep(a);
    var w := Names(p, prefix, keep, n);
    forall i | 0 <= i < |w|
      ensures 4 <= |w[i]| && |w[i]| + 1 <= NameBuffer && w[i][|w[i]| - 4..] == ".bmp"
    {
      ValidatedPlan(a, i, CMode(p, i));
      FileNameShape(prefix, keep, CMode(p, i));
    }
    if n > 0 {
      ValidatedPlan(a, n - 1, 0);
    }
    ValidatedPlan(a, 0, 0);
    NamesDistinct(p, prefix, keep, n);
  }

  /**
   * Every picture a run writes has a name that ends in `.bmp` and fits the
   * name buffer with its terminating zero, and no two pictures share a name.
   */
  lemma SessionNames(argv: seq<string>, env: Env)
    ensures WellNamed(Session(argv, env).written)
  {
    var c := Configured(env.conv, argv);
    if c.Some? && Validate(c.value).None? && env.prepared {
      ValidatedNames(c.value, StopFrom(env.fails, PlanOf(c.value).pictures, 0));
    }
  }

  /**
   * A run hands the accumulators every mode from 0 on, in order, once each,
   * with its projection, and no mode beyond the last one the coefficient lists
   * hold.
   */
  lemma SessionModes(argv: seq<string>, env: Env, a: Args)
    requires Configured(env.conv, argv) == Some(a)
    ensures var r := Session(argv, env);
            |r.addedX| == |r.addedY| <= LastMode(PlanOf(a)) + 1
    ensures var r := Session(argv, env);
            forall u :: 0 <= u < |r.addedX| ==> r.addedX[u] == Term(u, env.coeffX(u)) && r.addedY[u] == Term(u, env.coeffY(u))
  {
    if Validate(a).None? && env.prepared {
      var p := PlanOf(a);
      SpanBound(p, StopFrom(env.fails, p.pictures, 0));
    }
  }

  /** The modes of an earlier frame all come before the first mode of a later one. */
  lemma FrameRangesApart(p: Plan, j: nat, k: nat)
    requires p.increment >= 1
    requires j < k
    ensures CMode(p, j) < FirstMode(p, k)
  {
    CModeIncreasing(p, j, k - 1);
  }

  /** No mode lies in the ranges of two different frames. */
  lemma FrameRangesDisjoint(p: Plan, j: nat, k: nat, u: nat)
    requires p.increment >= 1
    requires FirstMode(p, j) <= u <= CMode(p, j) && FirstMode(p, k) <= u <= CMode(p, k)
    ensures j == k
  {
    if j < k {
      FrameRangesApart(p, j, k);
    } else if k < j {
      FrameRangesApart(p, k, j);
    }
  }

  /**
   * The ranges of modes the frames accumulate, from the one after the previous
   * frame's mode to the frame's own, follow each other without gap: each mode up
   * to frame n-1's belongs to one of frames 0 to n-1.
   */
  lemma {:induction false} FrameOfMode(p: Plan, n: nat, u: nat) returns (k: nat)
    requires 0 < n && u <= CMode(p, n - 1)
    ensures k < n && FirstMode(p, k) <= u <= CMode(p, k)
  {
    if n == 1 || CMode(p, n - 2) < u {
      k := n - 1;
    } else {
      k := FrameOfMode(p, n - 1, u);
    }
  }
}
