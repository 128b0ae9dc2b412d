/** The stereo RC filter of the sound effector: int16 samples, truncating division, state kept between buffers. */
module RcFilter {
  import opened CArith
  import opened Scan

  /** One sample per channel: a frame of the buffer, and also the pair of saved levels. */
  datatype Stereo = Stereo(left: Int16, right: Int16)

  const SILENT := Stereo(0, 0)

  /** The store of ten times a sample into an int16_t. */
  function Amplify(x: Int16): Int16 { ToInt16(x * 10) }

  /** One filter step of one channel, stored back into an int16_t. */
  function Step(y: Int16, x: Int16): Int16 {
    ToInt16(CDiv(y * 995, 1000) + CDiv(x * 10 * 5, 1000))
  }

  /** A call that finds both levels zero restarts from ten times the first frame. */
  function Seed(st: Stereo, first: Stereo): Stereo {
    if st == SILENT then Stereo(Amplify(first.left), Amplify(first.right)) else st
  }

  /** One pass of the loop body: both channels take one step. */
  function Both(st: Stereo, f: Stereo): Stereo {
    Stereo(Step(st.left, f.left), Step(st.right, f.right))
  }

  /** Both levels after the first `k` frames of `s`, started from `st`. */
  function Level(st: Stereo, s: seq<Stereo>, k: nat): Stereo
    requires k <= |s|
  {
    Fold(Both, st, s, k)
  }

  type Block = s: seq<Stereo> | s != [] witness [SILENT]

  /** What one call writes over block `s`. */
  function Output(st: Stereo, s: Block): (out: Block)
    ensures |out| == |s|
  {
    States(Both, Seed(st, s[0]), s)
  }

  /** What one call leaves in the saved levels. */
  function After(st: Stereo, s: Block): Stereo {
    Level(Seed(st, s[0]), s, |s|)
  }

  /** The first `n` frames of interleaved samples. */
  function Frames(a: seq<Int16>, n: nat): (s: seq<Stereo>)
    requires 2 * n <= |a|
    ensures |s| == n && forall i | 0 <= i < n :: s[i].left == a[2 * i] && s[i].right == a[2 * i + 1]
  {
    seq(n, i requires 0 <= i < n => Stereo(a[2 * i], a[2 * i + 1]))
  }

  /** The loop counts bytes in steps of four, so a partial frame counts as a whole one. */
  function FrameCount(size: nat): (n: nat)
    ensures 4 * n >= size && (n > 0 ==> 4 * (n - 1) < size)
  {
    (size + 3) / 4
  }

  class SoundEffector {
    var left: Int16
    var right: Int16

    constructor ()
      ensures State() == SILENT
    {
      left, right := 0, 0;
    }

    ghost function State(): Stereo
      reads this
    {
      Stereo(left, right)
    }

    /** The loop body of FilterSample for the frame at `ls`, `ls + 1`. */
    method FilterFrame(buf: array<Int16>, ls: nat, rs: nat)
      requires ls + 1 == rs < buf.Length
      modifies this, buf
      ensures State() == Stereo(buf[ls], buf[rs]) == Both(old(State()), Stereo(old(buf[ls]), old(buf[rs])))
      ensures forall i | 0 <= i < buf.Length && i != ls && i != rs :: buf[i] == old(buf[i])
    {
      buf[ls] := Step(left, buf[ls]);
      buf[rs] := Step(right, buf[rs]);
      left := buf[ls];
      right := buf[rs];
    }

    method FilterSample(buf: array<Int16>, size: nat)
      requires 2 <= buf.Length && 2 * FrameCount(size) <= buf.Length
      modifies this, buf
      ensures forall i | 2 * FrameCount(size) <= i < buf.Length :: buf[i] == old(buf[i])
      ensures size == 0 ==> State() == Seed(old(State()), Stereo(buf[0], buf[1]))
      ensures size > 0 ==> var block := Frames(old(buf[..]), FrameCount(size));
                           Frames(buf[..], FrameCount(size)) == Output(old(State()), block)
                           && State() == After(old(State()), block)
    {
      if left == 0 && right == 0 {
        left := Amplify(buf[0]);
        right := Amplify(buf[1]);
      }
      FilterFrames(buf, size);
      if size > 0 {
        assert Frames(old(buf[..]), FrameCount(size))[0] == Stereo(old(buf[0]), old(buf[1]));
      }
    }

    /** The loop of FilterSample, entered with the seeded levels. */
    method FilterFrames(buf: array<Int16>, size: nat)
      requires 2 * FrameCount(size) <= buf.Length
      modifies this, buf
      ensures forall i | 2 * FrameCount(size) <= i < buf.Length :: buf[i] == old(buf[i])
      ensures var was := Frames(old(buf[..]), FrameCount(size));
              Frames(buf[..], FrameCount(size)) == States(Both, old(State()), was)
              && State() == Level(old(State()), was, FrameCount(size))
    {
      ghost var n := FrameCount(size);
      ghost var was := Frames(buf[..], n);
      ghost var start := State();
      ghost var out := States(Both, start, was);
      var cnt, ls, rs := 0, 0, 1;
      ghost var k := 0;
      while cnt < size
        invariant cnt == 4 * k && ls == 2 * k && rs == ls + 1 && k <= n
        invariant forall i {:trigger out[i]} | 0 <= i < k :: out[i] == Stereo(buf[2 * i], buf[2 * i + 1])
        invariant forall i | ls <= i < buf.Length :: buf[i] == old(buf[i])
        invariant State() == Level(start, was, k)
        decreases n - k
      {
        assert was[k] == Stereo(buf[ls], buf[rs]);
        LevelStep(start, was, k);
        FilterFrame(buf, ls, rs);
        ls, rs, cnt, k := ls + 2, rs + 2, cnt + 4, k + 1;
      }
      FramesAre(buf[..], out);
    }
  }

  lemma FramesAre(a: seq<Int16>, out: seq<Stereo>)
    requires 2 * |out| <= |a| && forall i | 0 <= i < |out| :: out[i] == Stereo(a[2 * i], a[2 * i + 1])
    ensures Frames(a, |out|) == out
  {
  }

  lemma LevelStep(st: Stereo, s: seq<Stereo>, k: nat)
    requires k < |s|
    ensures States(Both, st, s)[k] == Level(st, s, k + 1) == Both(Level(st, s, k), s[k])
  {
  }

  // ---------------------------------------------------------------- bounds

  predicate Within(m: int, y: int) { -m <= y <= m }

  predicate BothWithin(m: int, f: Stereo) { Within(m, f.left) && Within(m, f.right) }

  predicate Loudness(m: int, s: seq<Stereo>) {
    forall i | 0 <= i < |s| :: BothWithin(m, s[i])
  }

  /** Inside the band the int16 store of a step is exact and stays inside the band. */
  lemma StepInBand(m: int, y: Int16, x: Int16)
    requires 10 * m <= 0x7fff && Within(10 * m, y) && Within(m, x)
    ensures Step(y, x) == CDiv(y * 995, 1000) + CDiv(x * 10 * 5, 1000)
    ensures Within(10 * m, Step(y, x))
  {
    CDivShrinks(y * 995, 9950 * m);
    CDivShrinks(x * 10 * 5, 50 * m);
    NoWrap(CDiv(y * 995, 1000) + CDiv(x * 10 * 5, 1000));
  }

  lemma NoWrap(v: int)
    requires -0x8000 <= v <= 0x7fff
    ensures ToInt16(v) == v
  {
  }

  lemma CDivShrinks(a: int, n: int)
    requires Within(n, a)
    ensures Within(n, 1000 * CDiv(a, 1000))
  {
  }

  lemma {:induction false} LevelInBand(m: int, st: Stereo, s: seq<Stereo>, k: nat)
    requires k <= |s| && 10 * m <= 0x7fff && BothWithin(10 * m, st) && Loudness(m, s)
    ensures BothWithin(10 * m, Level(st, s, k))
  {
    if k > 0 {
      LevelInBand(m, st, s, k - 1);
      assert BothWithin(m, s[k - 1]);
      StepInBand(m, Level(st, s, k - 1).left, s[k - 1].left);
      StepInBand(m, Level(st, s, k - 1).right, s[k - 1].right);
    }
  }

  lemma SeedInBand(m: int, st: Stereo, first: Stereo)
    requires 10 * m <= 0x7fff && BothWithin(10 * m, st) && BothWithin(m, first)
    ensures BothWithin(10 * m, Seed(st, first))
  {
  }

  /** One call keeps its output and its saved levels inside the band, reseeding included. */
  lemma OutputInBand(m: int, st: Stereo, s: Block)
    requires 10 * m <= 0x7fff && BothWithin(10 * m, st) && Loudness(m, s)
    ensures Loudness(10 * m, Output(st, s)) && BothWithin(10 * m, After(st, s))
  {
    SeedInBand(m, st, s[0]);
    var seed := Seed(st, s[0]);
    LevelInBand(m, seed, s, |s|);
    forall i | 0 <= i < |s| ensures BothWithin(10 * m, Output(st, s)[i]) {
      LevelInBand(m, seed, s, i + 1);
    }
  }

  /** Saved levels after a run of buffers, one call each. */
  function RunState(st: Stereo, blocks: seq<Block>): Stereo
    decreases |blocks|
  {
    if blocks == [] then st else RunState(After(st, blocks[0]), blocks[1..])
  }

  /** Everything a run of buffers writes. */
  function RunOutput(st: Stereo, blocks: seq<Block>): seq<Stereo>
    decreases |blocks|
  {
    if blocks == [] then [] else Output(st, blocks[0]) + RunOutput(After(st, blocks[0]), blocks[1..])
  }

  /** Bounded input gives bounded output and bounded levels over every run of buffers. */
  lemma {:induction false} BoundedRun(m: int, st: Stereo, blocks: seq<Block>)
    requires 10 * m <= 0x7fff && BothWithin(10 * m, st)
    requires forall i | 0 <= i < |blocks| :: Loudness(m, blocks[i])
    ensures Loudness(10 * m, RunOutput(st, blocks))
    ensures BothWithin(10 * m, RunState(st, blocks))
    decreases |blocks|
  {
    if blocks != [] {
      var b := blocks[0];
      OutputInBand(m, st, b);
      BoundedRun(m, After(st, b), blocks[1..]);
    }
  }

  /**
   * The gain of ten limits the band: the reseeding store is exact on all samples of loudness m iff 10*m fits in 15
   * bits.
   */
  lemma SeedExactIff(m: Int16)
    requires m >= 0
    ensures (forall x: Int16 | Within(m, x) :: Amplify(x) == 10 * x) <==> 10 * m <= 0x7fff
  {
    if 10 * m > 0x7fff {
      assert Within(m, m) && Amplify(m) != 10 * m;
    }
  }

  // ---------------------------------------------------------------- order

  predicate Below(a: Stereo, b: Stereo) { a.left <= b.left && a.right <= b.right }

  lemma DivMonotone(a: int, b: int)
    requires a <= b
    ensures CDiv(a, 1000) <= CDiv(b, 1000)
  {
  }

  /** The sum a step stores. */
  function Unwrapped(y: Int16, x: Int16): int { CDiv(y * 995, 1000) + CDiv(x * 10 * 5, 1000) }

  /** Input up to 3299 adds at most 164, just what the decay from the extreme levels leaves room for. */
  lemma StepExact(y: Int16, x: Int16)
    requires Within(3299, x)
    ensures Step(y, x) == Unwrapped(y, x)
  {
    Decayed(y);
    Kick(x);
    NoWrap(Unwrapped(y, x));
  }

  lemma Decayed(y: Int16)
    ensures -32604 <= CDiv(y * 995, 1000) <= 32603
  {
  }

  lemma Kick(x: Int16)
    requires Within(3299, x)
    ensures Within(164, CDiv(x * 10 * 5, 1000))
  {
  }

  lemma StepMonotone(y: Int16, y': Int16, x: Int16, x': Int16)
    requires Within(3299, x) && Within(3299, x') && y <= y' && x <= x'
    ensures Step(y, x) <= Step(y', x')
  {
    StepExact(y, x);
    StepExact(y', x');
    DivMonotone(y * 995, y' * 995);
    DivMonotone(x * 10 * 5, x' * 10 * 5);
  }

  ghost predicate AllBelow(s: seq<Stereo>, s': seq<Stereo>) {
    |s| == |s'| && forall i | 0 <= i < |s| :: Below(s[i], s'[i])
  }

  /**
   * From any starting levels, higher levels and samples never give a lower output while the input stays within
   * 3299.
   */
  lemma {:induction false} LevelMonotone(st: Stereo, st': Stereo, s: seq<Stereo>, s': seq<Stereo>, k: nat)
    requires k <= |s| && Loudness(3299, s) && Loudness(3299, s') && Below(st, st') && AllBelow(s, s')
    ensures Below(Level(st, s, k), Level(st', s', k))
  {
    if k > 0 {
      LevelMonotone(st, st', s, s', k - 1);
      var p, p', x, x' := Level(st, s, k - 1), Level(st', s', k - 1), s[k - 1], s'[k - 1];
      assert Below(x, x') && BothWithin(3299, x) && BothWithin(3299, x');
      StepMonotone(p.left, p'.left, x.left, x'.left);
      StepMonotone(p.right, p'.right, x.right, x'.right);
    }
  }

  /** Filtering keeps the order of levels and samples, for input of loudness m. */
  ghost predicate KeepsOrder(m: nat) {
    forall st, st', s, s', k: nat
      | k <= |s| && Loudness(m, s) && Loudness(m, s') && Below(st, st') && AllBelow(s, s')
      :: Below(Level(st, s, k), Level(st', s', k))
  }

  /** No step of loudness m wraps, whatever the level. */
  ghost predicate NeverWraps(m: nat) {
    forall y: Int16, x: Int16 | Within(m, x) :: Step(y, x) == Unwrapped(y, x)
  }

  /** No store wraps, whatever the level, exactly for input up to 3299. */
  lemma NeverWrapsIff(m: nat)
    ensures NeverWraps(m) <==> m <= 3299
  {
    if m <= 3299 {
      forall y: Int16, x: Int16 | Within(m, x) ensures Step(y, x) == Unwrapped(y, x) { StepExact(y, x); }
    } else {
      LoudestWraps();
      assert Within(m, 3300);
    }
  }

  /** Filtering is monotone from all starting levels exactly for input up to 3299. */
  lemma LevelMonotoneIff(m: nat)
    ensures KeepsOrder(m) <==> m <= 3299
  {
    if m <= 3299 {
      forall st, st', s, s', k: nat
        | k <= |s| && Loudness(m, s) && Loudness(m, s') && Below(st, st') && AllBelow(s, s')
        ensures Below(Level(st, s, k), Level(st', s', k))
      {
        Quieter(m, s);
        Quieter(m, s');
        LevelMonotone(st, st', s, s', k);
      }
    } else {
      OrderBreaks(m);
    }
  }

  lemma OrderBreaks(m: nat)
    requires m > 3299
    ensures !KeepsOrder(m)
  {
    LoudestWraps();
    var st, s, s' := Stereo(0x7fff, 0), [Stereo(3299, 0)], [Stereo(3300, 0)];
    assert Fold(Both, st, s, 0) == st == Fold(Both, st, s', 0);
    assert Loudness(m, s) && Loudness(m, s') && Below(st, st) && AllBelow(s, s');
    assert !Below(Level(st, s, 1), Level(st, s', 1));
  }

  lemma Quieter(m: nat, s: seq<Stereo>)
    requires m <= 3299 && Loudness(m, s)
    ensures Loudness(3299, s)
  {
    forall i | 0 <= i < |s| ensures BothWithin(3299, s[i]) { assert BothWithin(m, s[i]); }
  }

  /** At the highest level one more unit of input turns the highest output into the lowest. */
  lemma LoudestWraps()
    ensures Step(0x7fff, 3299) == 0x7fff && Step(0x7fff, 3300) == -0x8000
    ensures Unwrapped(0x7fff, 3300) == 0x8000
  {
    Quotients();
    NoWrap(0x7fff);
    assert ToInt16(0x8000) == -0x8000;
  }

  lemma Quotients()
    ensures CDiv(0x7fff * 995, 1000) == 32603 && CDiv(3299 * 10 * 5, 1000) == 164 && CDiv(3300 * 10 * 5, 1000) == 165
  {
  }

  // ---------------------------------------------------------------- two separate channels

  ghost predicate SameLeft(s: seq<Stereo>, s': seq<Stereo>) {
    |s| == |s'| && forall i | 0 <= i < |s| :: s[i].left == s'[i].left
  }

  ghost predicate SameRight(s: seq<Stereo>, s': seq<Stereo>) {
    |s| == |s'| && forall i | 0 <= i < |s| :: s[i].right == s'[i].right
  }

  /** What the left channel does depends on the left levels and samples only. */
  lemma {:induction false} LeftAlone(st: Stereo, st': Stereo, s: seq<Stereo>, s': seq<Stereo>, k: nat)
    requires k <= |s| && st.left == st'.left && SameLeft(s, s')
    ensures Level(st, s, k).left == Level(st', s', k).left
  {
    if k > 0 { LeftAlone(st, st', s, s', k - 1); }
  }

  /** And the right channel on the right ones. */
  lemma {:induction false} RightAlone(st: Stereo, st': Stereo, s: seq<Stereo>, s': seq<Stereo>, k: nat)
    requires k <= |s| && st.right == st'.right && SameRight(s, s')
    ensures Level(st, s, k).right == Level(st', s', k).right
  {
    if k > 0 { RightAlone(st, st', s, s', k - 1); }
  }

  /** Reseeding keeps the channels apart as well: each level is ten times the first sample of its own channel. */
  lemma SeedAlone(first: Stereo)
    ensures Within(3276, first.left) ==> Seed(SILENT, first).left == 10 * first.left
    ensures Within(3276, first.right) ==> Seed(SILENT, first).right == 10 * first.right
    ensures forall f: Stereo :: f.left == first.left ==> Seed(SILENT, f).left == Seed(SILENT, first).left
    ensures forall f: Stereo :: f.right == first.right ==> Seed(SILENT, f).right == Seed(SILENT, first).right
  {
    if Within(3276, first.left) { NoWrap(first.left * 10); }
    if Within(3276, first.right) { NoWrap(first.right * 10); }
  }

  /** A step is 0.995 of the level and 0.05 of the sample, up to less than two units of rounding. */
  lemma StepWeights(y: Int16, x: Int16)
    requires Within(3299, x)
    ensures -2000 < 1000 * Step(y, x) - (995 * y + 50 * x) < 2000
  {
    StepExact(y, x);
    Truncated(y * 995);
    Truncated(x * 10 * 5);
  }

  lemma Truncated(a: int)
    ensures -1000 < 1000 * CDiv(a, 1000) - a < 1000
  {
  }

  /** The gain for a steady input is ten: a sample divisible by 20 holds the level at ten times itself. */
  lemma SteadyLevel(x: Int16)
    requires Within(3276, x) && x % 20 == 0
    ensures Step(10 * x, x) == 10 * x
  {
    var q: int := x / 20;
    Exact(199 * q);
    Exact(q);
    assert 10 * x * 995 == 1000 * (199 * q) && x * 10 * 5 == 1000 * q;
    NoWrap(10 * x);
  }

  lemma Exact(q: int)
    ensures CDiv(1000 * q, 1000) == q
  {
  }

  // ---------------------------------------------------------------- decay

  function Abs(y: int): nat { if y < 0 then -y else y }

  lemma SilenceDecays(y: Int16)
    ensures if y == 0 then Step(y, 0) == 0 else Abs(Step(y, 0)) < Abs(y)
  {
    assert CDiv(0 * 10 * 5, 1000) == 0;
    var z := CDiv(y * 995, 1000);
    assert Abs(z) <= Abs(y);
  }

  function Remaining(n: nat, k: nat): nat { if k <= n then n - k else 0 }

  lemma SilenceStep(st: Stereo, k: nat, l: nat, r: nat)
    requires k > 0 && Abs(st.left) <= Remaining(l, k - 1) && Abs(st.right) <= Remaining(r, k - 1)
    ensures Abs(Both(st, SILENT).left) <= Remaining(l, k) && Abs(Both(st, SILENT).right) <= Remaining(r, k)
  {
    SilenceDecays(st.left);
    SilenceDecays(st.right);
  }

  /**
   * Silence drives every starting level to exactly zero, one unit a step or faster: truncation leaves no limit
   * cycle.
   */
  lemma {:induction false} SilenceReachesZero(st: Stereo, s: seq<Stereo>, k: nat)
    requires k <= |s| && forall i | 0 <= i < |s| :: s[i] == SILENT
    ensures Abs(Level(st, s, k).left) <= Remaining(Abs(st.left), k)
    ensures Abs(Level(st, s, k).right) <= Remaining(Abs(st.right), k)
    ensures k >= Abs(st.left) && k >= Abs(st.right) ==> Level(st, s, k) == SILENT
  {
    if k > 0 {
      SilenceReachesZero(st, s, k - 1);
      SilenceStep(Level(st, s, k - 1), k, Abs(st.left), Abs(st.right));
    }
  }

  // ---------------------------------------------------------------- block splitting

  /** A sample whose tenfold wraps to zero in an int16_t. */
  predicate SeedsZero(x: Int16) { x == 0 || x == -0x8000 }

  lemma ReseedVisible(x: Int16)
    ensures SeedsZero(x) <==> Amplify(x) == 0
    ensures SeedsZero(x) <==> Step(Amplify(x), x) == Step(0, x)
  {
    AmplifiedEven(x);
    DecayedZero(Amplify(x));
    DecayedZero(0);
    SameStore(CDiv(Amplify(x) * 995, 1000), CDiv(x * 10 * 5, 1000));
  }

  predicate Even(v: int) { v % 2 == 0 }

  lemma AmplifiedEven(x: Int16)
    ensures Even(Amplify(x)) && (SeedsZero(x) <==> Amplify(x) == 0)
  {
    var v: int := x * 10;
    var wraps := if v % 0x1_0000 < 0x8000 then v / 0x1_0000 else v / 0x1_0000 + 1;
    assert Amplify(x) == 2 * (5 * x - 0x8000 * wraps);
    Doubled(5 * x - 0x8000 * wraps);
  }

  lemma Doubled(h: int)
    ensures Even(2 * h)
  {
  }

  lemma DecayedZero(y: Int16)
    requires Even(y)
    ensures Within(0x7fff, CDiv(y * 995, 1000)) && (CDiv(y * 995, 1000) == 0 <==> y == 0)
  {
  }

  lemma SameStore(d: int, e: int)
    requires Within(0x7fff, d)
    ensures ToInt16(d + e) == ToInt16(e) <==> d == 0
  {
  }

  /** One call on A ++ B equals two calls exactly when A does not end in silence or reseeding from B changes nothing. */
  lemma SplitIff(st: Stereo, a: Block, b: Block)
    ensures Output(st, a + b) == Output(st, a) + Output(After(st, a), b)
       <==> After(st, a) != SILENT || (SeedsZero(b[0].left) && SeedsZero(b[0].right))
  {
    var mid := After(st, a);
    var seed := Seed(mid, b[0]);
    StatesSplit(Both, Seed(st, a[0]), a, b);
    var x, y := States(Both, mid, b), States(Both, seed, b);
    assert Output(st, a + b) == Output(st, a) + x && Output(mid, b) == y;
    ReseedVisible(b[0].left);
    ReseedVisible(b[0].right);
    if seed != mid {
      FirstState(mid, b);
      FirstState(seed, b);
      assert (Output(st, a) + x)[|a|] == x[0] && (Output(st, a) + y)[|a|] == y[0];
    }
  }

  lemma FirstState(st: Stereo, b: Block)
    ensures States(Both, st, b)[0] == Both(st, b[0])
  {
    assert Fold(Both, st, b, 0) == st;
  }

  /** The levels carried on agree as well, so a split inside a longer run is harmless when A does not end in silence. */
  lemma SplitState(st: Stereo, a: Block, b: Block)
    requires After(st, a) != SILENT
    ensures After(st, a + b) == After(After(st, a), b)
  {
    StatesSplit(Both, Seed(st, a[0]), a, b);
  }
}
