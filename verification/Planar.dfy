/** Interleaved image bytes rearranged into colour planes. */
module Planar {
  import opened CArith

  const BUFSIZ := 784 // 28 * 28

  datatype Header = Header(magic: Byte, width: UInt16, height: UInt16, max: UInt16) {
    function Colours(): nat { if magic == 5 then 1 else 3 }
    function SampleBytes(): nat { if max <= 255 then 1 else 2 }
  }

  function Times(n: nat, f: nat): nat
    requires 1 <= f <= 3
  {
    if f == 1 then n else if f == 2 then n + n else n + n + n
  }

  /** Byte count of the image in unbounded arithmetic. */
  function TrueSize(h: Header): nat {
    Times(Times(h.width * h.height, h.Colours()), h.SampleBytes())
  }

  lemma TrueSizeIsProduct(px: nat, c: nat, b: nat)
    requires 1 <= c <= 3 && 1 <= b <= 3
    ensures Times(Times(px, c), b) == px * c * b
  {
    assert Times(px, c) == px * c;
  }

  /** The size the program works with. */
  function DataSize(h: Header): UInt32 { ToUInt32(TrueSize(h)) }

  /** calc_data_bsize: every step stored back into a uint32_t. */
  method CalcDataBsize(h: Header) returns (bsize: UInt32)
    ensures bsize == DataSize(h) == ToUInt32(h.width * h.height * h.Colours() * h.SampleBytes())
    ensures bsize == ToUInt32(h.width * h.height * (if h.magic == 5 then 1 else 3) * (if h.max <= 255 then 1 else 2))
  {
    TrueSizeIsProduct(h.width * h.height, h.Colours(), h.SampleBytes());
    StoredSteps(h.width * h.height, h.Colours(), h.SampleBytes());
    bsize := ToUInt32(h.width * h.height);
    bsize := ToUInt32(Times(bsize, if h.magic == 5 then 1 else 3));
    bsize := ToUInt32(Times(bsize, if h.max <= 255 then 1 else 2));
  }

  lemma StoredSteps(px: nat, c: nat, b: nat)
    requires 1 <= c <= 3 && 1 <= b <= 3
    ensures ToUInt32(Times(ToUInt32(Times(ToUInt32(px), c)), b)) == ToUInt32(Times(Times(px, c), b))
  {
    StoredTimes(px, c);
    StoredTimes(Times(px, c), b);
  }

  lemma StoredTimes(n: nat, f: nat)
    requires 1 <= f <= 3
    ensures ToUInt32(Times(ToUInt32(n), f)) == ToUInt32(Times(n, f))
  {
    var r := ToUInt32(n);
    if f == 2 {
      StoreSum(n, r);
      StoreSum(n, n);
    } else if f == 3 {
      StoreSum(n, r + r);
      StoreSum(n, r + n);
      StoreSum(n, n + n);
    }
  }

  // ---------------------------------------------------------------- planes

  /** Every p-th element from index c on. */
  function Plane<T>(s: seq<T>, c: nat, p: nat): seq<T>
    requires p > 0
    decreases |s| - c
  {
    if c >= |s| then [] else [s[c]] + Plane(s, c + p, p)
  }

  /** Planes c, c+1, ..., p-1 one after another. */
  function PlanesFrom<T>(s: seq<T>, c: nat, p: nat): seq<T>
    requires c <= p && p > 0
    decreases p - c
  {
    if c == p then [] else Plane(s, c, p) + PlanesFrom(s, c + 1, p)
  }

  function Planes<T>(s: seq<T>, p: nat): seq<T>
    requires p > 0
  {
    PlanesFrom(s, 0, p)
  }

  lemma {:induction false} PlaneShift<T>(s: seq<T>, c: nat, p: nat)
    requires 0 < p <= |s|
    ensures Plane(s, c + p, p) == Plane(s[p..], c, p)
    decreases |s| - c
  {
    if c + p < |s| { PlaneShift(s, c + p, p); }
  }

  lemma {:induction false} ShortPlanes<T>(s: seq<T>, c: nat, p: nat)
    requires c <= p && 0 < p && |s| < p
    ensures PlanesFrom(s, c, p) == if c <= |s| then s[c..] else []
    decreases p - c
  {
    if c < p {
      ShortPlanes(s, c + 1, p);
      if c < |s| { assert Plane(s, c, p) == [s[c]]; assert s[c..] == [s[c]] + s[c + 1..]; }
    }
  }

  lemma {:induction false} RowPlanes<T>(s: seq<T>, c: nat, p: nat)
    requires c <= p && 0 < p <= |s|
    ensures multiset(PlanesFrom(s, c, p)) == multiset(s[c..p]) + multiset(PlanesFrom(s[p..], c, p))
    decreases p - c
  {
    if c < p {
      RowPlanes(s, c + 1, p);
      FirstOfRow(s, c, p);
      Shuffle(s[c], Plane(s[p..], c, p), PlanesFrom(s, c + 1, p), s[c + 1..p], PlanesFrom(s[p..], c + 1, p));
    }
  }

  lemma FirstOfRow<T>(s: seq<T>, c: nat, p: nat)
    requires c < p <= |s|
    ensures Plane(s, c, p) == [s[c]] + Plane(s[p..], c, p) && s[c..p] == [s[c]] + s[c + 1..p]
  {
    PlaneShift(s, c, p);
  }

  lemma Shuffle<T>(x: T, column: seq<T>, later: seq<T>, row: seq<T>, below: seq<T>)
    requires multiset(later) == multiset(row) + multiset(below)
    ensures multiset([x] + column + later) == multiset([x] + row) + multiset(column + below)
  {
  }

  /** For any length and number of colours, every input byte is used exactly once. */
  lemma {:induction false} PlanesPermute<T>(s: seq<T>, p: nat)
    requires p > 0
    ensures multiset(Planes(s, p)) == multiset(s)
    decreases |s|
  {
    if |s| < p {
      ShortPlanes(s, 0, p);
    } else {
      PlanesPermute(s[p..], p);
      PermuteRow(s, p);
    }
  }

  lemma PermuteRow<T>(s: seq<T>, p: nat)
    requires 0 < p <= |s| && multiset(Planes(s[p..], p)) == multiset(s[p..])
    ensures multiset(Planes(s, p)) == multiset(s)
  {
    RowPlanes(s, 0, p);
    assert s == s[0..p] + s[p..];
  }

  lemma PlanesLength<T>(s: seq<T>, p: nat)
    requires p > 0
    ensures |Planes(s, p)| == |s|
  {
    PlanesPermute(s, p);
    assert |multiset(Planes(s, p))| == |multiset(s)|;
  }

  lemma {:induction false} PlaneAt<T>(s: seq<T>, c: nat, p: nat, k: nat)
    requires p > 0 && c + k * p < |s|
    ensures k < |Plane(s, c, p)| && Plane(s, c, p)[k] == s[c + k * p]
    decreases k
  {
    if k > 0 {
      OneRowDown(c, k, p);
      var at := c + k * p;
      assert c < |s| && at == c + p + (k - 1) * p;
      PlaneAt(s, c + p, p, k - 1);
      assert Plane(s, c, p)[1..] == Plane(s, c + p, p);
    }
  }

  lemma OneRowDown(c: nat, k: nat, p: nat)
    requires k > 0
    ensures c + p + (k - 1) * p == c + k * p && (k - 1) * p >= 0
  {
  }

  lemma {:induction false} PlaneLength<T>(s: seq<T>, c: nat, p: nat, q: nat)
    requires p > 0 && |s| <= c + q * p && (q > 0 ==> c + (q - 1) * p < |s|)
    ensures |Plane(s, c, p)| == q
    decreases q
  {
    if q > 0 {
      assert c + p + (q - 1) * p == c + q * p;
      if q > 1 { assert c + p + (q - 2) * p == c + (q - 1) * p; }
      PlaneLength(s, c + p, p, q - 1);
    }
  }

  lemma PlaneRows<T>(s: seq<T>, p: nat, q: nat, c: nat)
    requires |s| == p * q && c < p
    ensures |Plane(s, c, p)| == q
  {
    assert q > 0 ==> (q - 1) * p == p * q - p;
    PlaneLength(s, c, p, q);
  }

  lemma InColumn(p: nat, q: nat, c: nat, k: nat)
    requires c < p && k < q
    ensures c + k * p < p * q
  {
    MulLe(k + 1, q, p);
  }

  lemma OnePlaneLess(skip: nat, q: nat, k: nat)
    requires skip > 0
    ensures 0 <= skip * q + k - q == (skip - 1) * q + k
  {
  }

  /** Position `skip * q + k` of planes of length q is position k of plane `c + skip`. */
  lemma {:induction false} PlanePosition<T>(s: seq<T>, p: nat, q: nat, c: nat, skip: nat, k: nat, to: nat)
    requires c + skip < p && k < q && to == skip * q + k
    requires forall j | c <= j < p :: |Plane(s, j, p)| == q
    ensures to < |PlanesFrom(s, c, p)| && PlanesFrom(s, c, p)[to] == Plane(s, c + skip, p)[k]
    decreases skip
  {
    if skip > 0 {
      OnePlaneLess(skip, q, k);
      PlanePosition(s, p, q, c + 1, skip - 1, k, to - q);
    }
  }

  /** When the length is p*q, plane c of the output is column c of the input: the transpose. */
  lemma Transpose<T>(s: seq<T>, p: nat, q: nat, c: nat, k: nat)
    requires |s| == p * q && c < p && k < q
    ensures c + k * p < |s| && c * q + k < |Planes(s, p)|
    ensures Planes(s, p)[c * q + k] == s[c + k * p]
  {
    InColumn(p, q, c, k);
    PlaneAt(s, c, p, k);
    forall j | 0 <= j < p ensures |Plane(s, j, p)| == q { PlaneRows(s, p, q, j); }
    PlanePosition(s, p, q, 0, c, k, c * q + k);
  }

  /** Reading the planes back pixel by pixel restores the input. */
  lemma ReinterleaveRestores<T>(s: seq<T>, p: nat, q: nat, i: nat)
    requires p > 0 && |s| == p * q && i < |s|
    ensures 0 <= i % p * q + i / p < |Planes(s, p)|
    ensures Planes(s, p)[i % p * q + i / p] == s[i]
  {
    var c, k := i % p, i / p;
    assert i == k * p + c;
    if k >= q { MulLe(q, k, p); }
    Transpose(s, p, q, c, k);
  }

  // ---------------------------------------------------------------- the program

  /** read_binary_data; `scale` stands for the division by the norm factor. */
  method ReadBinaryData(h: Header, data: array<Byte>, scale: Byte -> real, output: array<real>) returns (outCrsr: nat)
    requires DataSize(h) <= data.Length && DataSize(h) <= output.Length
    modifies output
    ensures outCrsr == DataSize(h)
    ensures output[..outCrsr] == Planes(Scaled(data[..DataSize(h)], scale), h.Colours())
    ensures forall i | outCrsr <= i < output.Length :: output[i] == old(output[i])
  {
    var priColorNum := if h.magic == 5 then 1 else 3;
    var dataBsize := CalcDataBsize(h);
    ghost var s := Scaled(data[..dataBsize], scale);
    ghost var all, todo := Planes(s, priColorNum), Planes(s, priColorNum);
    PlanesLength(s, priColorNum);
    outCrsr := 0;
    var colorCrsr: nat := 0;
    while colorCrsr < priColorNum
      invariant colorCrsr <= priColorNum && outCrsr + |todo| == |all| <= output.Length
      invariant todo == PlanesFrom(s, colorCrsr, priColorNum)
      invariant output[..outCrsr] + todo == all
      invariant forall i | outCrsr <= i < output.Length :: output[i] == old(output[i])
    {
      ghost var before, plane := output[..outCrsr], Plane(s, colorCrsr, priColorNum);
      outCrsr := CopyPlane(data, dataBsize, colorCrsr, priColorNum, scale, output, outCrsr);
      colorCrsr := colorCrsr + 1;
      todo := PlanesFrom(s, colorCrsr, priColorNum);
      Regroup(before, plane, todo);
    }
    assert output[..outCrsr] + [] == output[..outCrsr];
  }

  lemma Regroup(a: seq<real>, b: seq<real>, c: seq<real>)
    ensures a + (b + c) == a + b + c
  {
  }

  /** The inner loop of read_binary_data: one plane. */
  method CopyPlane(data: array<Byte>, dataBsize: nat, colorCrsr: nat, priColorNum: nat,
                   scale: Byte -> real, output: array<real>, start: nat)
    returns (outCrsr: nat)
    requires priColorNum > 0 && dataBsize <= data.Length
    requires start + |Plane(Scaled(data[..dataBsize], scale), colorCrsr, priColorNum)| <= output.Length
    modifies output
    ensures start <= outCrsr <= output.Length
    ensures output[..outCrsr] == old(output[..start]) + Plane(Scaled(data[..dataBsize], scale), colorCrsr, priColorNum)
    ensures forall i | 0 <= i < output.Length && !(start <= i < outCrsr) :: output[i] == old(output[i])
  {
    ghost var s := Scaled(data[..dataBsize], scale);
    ghost var plane, rest := Plane(s, colorCrsr, priColorNum), Plane(s, colorCrsr, priColorNum);
    outCrsr := start;
    var inCrsr: nat := colorCrsr;
    while inCrsr < dataBsize
      invariant start <= outCrsr && outCrsr + |rest| == start + |plane|
      invariant rest == Plane(s, inCrsr, priColorNum) == plane[outCrsr - start..]
      invariant forall i | start <= i < outCrsr :: output[i] == plane[i - start]
      invariant forall i | 0 <= i < output.Length && !(start <= i < outCrsr) :: output[i] == old(output[i])
      decreases dataBsize + priColorNum - inCrsr
    {
      assert rest[0] == s[inCrsr] && rest[0] == plane[outCrsr - start];
      output[outCrsr] := scale(data[inCrsr]);
      rest := rest[1..];
      outCrsr := outCrsr + 1;
      inCrsr := inCrsr + priColorNum;
    }
    assert output[..outCrsr] == output[..start] + output[start..outCrsr] && output[start..outCrsr] == plane;
  }

  function Scaled(s: seq<Byte>, scale: Byte -> real): (r: seq<real>)
    ensures |r| == |s|
  {
    seq(|s|, i requires 0 <= i < |s| => scale(s[i]))
  }

  /** The body of a file is used: its size fits the buffer it is read into, and all its bytes are there. */
  predicate Accepted(h: Header, available: nat) { DataSize(h) <= BUFSIZ && DataSize(h) <= available }

  /** The body part of load_pnm_internal. Nothing compares the size with the room in the output. */
  method LoadBody(h: Header, file: seq<Byte>, scale: Byte -> real, output: array<real>) returns (ok: bool)
    requires Accepted(h, |file|) ==> DataSize(h) <= output.Length
    modifies output
    ensures ok <==> Accepted(h, |file|)
    ensures ok ==> output[..DataSize(h)] == Planes(Scaled(file[..DataSize(h)], scale), h.Colours())
    ensures !ok ==> output[..] == old(output[..])
  {
    var expBsize := CalcDataBsize(h);
    if expBsize > BUFSIZ {
      return false;
    }
    var charBuf := new Byte[BUFSIZ];
    var actBsize := if expBsize <= |file| then expBsize else |file|;
    for i := 0 to actBsize
      modifies charBuf
      invariant forall j | 0 <= j < i :: charBuf[j] == file[j]
    {
      charBuf[i] := file[i];
    }
    if expBsize != actBsize {
      return false;
    }
    assert charBuf[..expBsize] == file[..expBsize];
    var n := ReadBinaryData(h, charBuf, scale, output);
    return true;
  }

  /** An output of `n` elements has room for every body that is used. */
  ghost predicate AlwaysRoom(n: nat) {
    forall h: Header, available: nat | Accepted(h, available) :: DataSize(h) <= n
  }

  /**
   * The writes stay inside the output for every file exactly if it holds 784 elements or more; since pnm_load
   * refuses outputs of more bytes than that, 784 elements is the one size that is both let through and safe.
   */
  lemma RoomIff(n: nat)
    ensures AlwaysRoom(n) <==> n >= BUFSIZ
    ensures 4 * n <= 4 * BUFSIZ && AlwaysRoom(n) <==> n == BUFSIZ
  {
    var largest := Header(5, 28, 28, 255);
    assert DataSize(largest) == BUFSIZ;
    assert Accepted(largest, BUFSIZ);
  }

  // ---------------------------------------------------------------- colours

  /** P5 images keep their order; of P6 images every third byte makes a plane, three planes in all. */
  lemma PlanesByMagic<T>(h: Header, s: seq<T>, q: nat, c: nat, k: nat)
    ensures h.magic == 5 ==> Planes(s, h.Colours()) == s
    ensures h.magic != 5 && |s| == 3 * q && c < 3 && k < q ==>
              c * q + k < |Planes(s, h.Colours())| && c + k * 3 < |s|
              && Planes(s, h.Colours())[c * q + k] == s[c + k * 3]
  {
    if h.magic == 5 {
      OnePlane(s, 0);
      assert Plane(s, 0, 1) + [] == Plane(s, 0, 1) && s[0..] == s;
      assert PlanesFrom(s, 1, 1) == [];
    } else if |s| == 3 * q && c < 3 && k < q {
      Transpose(s, 3, q, c, k);
    }
  }

  lemma {:induction false} OnePlane<T>(s: seq<T>, c: nat)
    requires c <= |s|
    ensures Plane(s, c, 1) == s[c..]
    decreases |s| - c
  {
    if c < |s| { OnePlane(s, c + 1); }
  }

  /** Colour of the sample that byte i of interleaved data belongs to. */
  function ColourOf(h: Header, i: nat): nat { i / h.SampleBytes() % h.Colours() }

  /**
   * Output planes hold one colour each exactly for one-byte samples or grey images: two-byte samples are split
   * byte-wise.
   */
  lemma PlanesPureIff(h: Header, n: nat)
    requires n >= h.Colours() * h.SampleBytes()
    ensures (forall i: nat, j: nat | i < n && j < n && i % h.Colours() == j % h.Colours() ::
               ColourOf(h, i) == ColourOf(h, j))
       <==> h.SampleBytes() == 1 || h.Colours() == 1
  {
    if h.SampleBytes() == 2 && h.Colours() == 3 {
      assert 0 % 3 == 3 % 3 && ColourOf(h, 0) == 0 && ColourOf(h, 3) == 1;
    }
  }
}
