/** Checksummed binary frames: header A0 flags len len, payload, footer sum sum seq B0. */
module AtFrame {
  import opened CArith

  const MAGIC_HEAD: Byte := 0xA0
  const MAGIC_FOOT: Byte := 0xB0
  const CHKSUM_FLAG: Byte := 0x80

  datatype Status = Ok | Einval | Efbig | Eagain | Enomem | Timeout | PollError | ReadError | IoctlError | WriteError

  // ---------------------------------------------------------------- checksum

  function Sum(s: seq<Byte>): nat {
    if s == [] then 0 else Sum(s[..|s| - 1]) + s[|s| - 1]
  }

  lemma {:induction false} SumBound(s: seq<Byte>)
    ensures Sum(s) <= 255 * |s|
  {
    if s != [] { SumBound(s[..|s| - 1]); }
  }

  /** Bytes the checksum loop visits: the int length is narrowed to an int16_t first. */
  function Covered(n: int): (c: nat)
    ensures 0 <= n <= 0x7fff ==> c == n
    ensures 0x8000 <= n <= 0xffff ==> c == 0
    ensures 0x1_0000 <= n <= 0x1_0003 ==> c == n - 0x1_0000
    ensures 0 <= n <= 0x1_7fff ==> c <= n
  {
    var sz := ToInt16(n);
    if sz > 0 then sz else 0
  }

  /** The checksum of a buffer for a call with length `n`. */
  function Checksum(s: seq<Byte>, n: int): (c: int)
    requires Covered(n) <= |s|
    ensures 0 <= c < 0x1_0000
  {
    Sum(s[..Covered(n)]) % 0x1_0000
  }

  /** calc_checksum; the 32-bit accumulator cannot wrap. */
  method CalcChecksum(buf: array<Byte>, n: int) returns (cs: int)
    requires Covered(n) <= buf.Length
    ensures cs == Checksum(buf[..], n)
  {
    var acc: UInt32 := 0;
    var dp: nat := 0;
    var sz: int := ToInt16(n);
    while sz > 0
      invariant dp <= Covered(n) && (dp == Covered(n) <==> sz <= 0) && (sz > 0 ==> dp + sz == Covered(n))
      invariant acc == Sum(buf[..dp])
      decreases sz
    {
      SumBound(buf[..dp]);
      assert buf[..dp + 1][..dp] == buf[..dp];
      acc := acc + buf[dp];
      dp := dp + 1;
      sz := sz - 1;
    }
    assert buf[..][..dp] == buf[..dp];
    cs := acc % 0x1_0000;
  }

  // ---------------------------------------------------------------- building and checking

  function Word(hi: int, lo: int): int { hi * 256 + lo }

  function Length(s: seq<Byte>): nat
    requires |s| >= 4
  {
    Word(s[2], s[3])
  }

  /** The footer lies inside the buffer. */
  predicate InBounds(s: seq<Byte>) { |s| >= 4 && (s[0] == MAGIC_HEAD ==> 8 + Length(s) <= |s|) }

  /** check_headfoot as a function of the buffer. */
  function Check(s: seq<Byte>): Status
    requires InBounds(s)
  {
    if s[0] != MAGIC_HEAD then Einval
    else
      var foot := 4 + Length(s);
      if s[foot + 3] != MAGIC_FOOT then Efbig
      else if s[1] < CHKSUM_FLAG then Ok
      else if Checksum(s, foot) == Word(s[foot], s[foot + 1]) then Ok else Eagain
  }

  method GetDataSize(buf: array<Byte>) returns (len: int)
    requires buf.Length >= 4
    ensures len == if buf[0] == MAGIC_HEAD then Length(buf[..]) else -22
  {
    if buf[0] != MAGIC_HEAD {
      return -22;
    }
    len := Word(buf[2], buf[3]);
  }

  method CheckHeadfoot(buf: array<Byte>) returns (st: Status)
    requires InBounds(buf[..])
    ensures st == Check(buf[..])
  {
    var len := GetDataSize(buf);
    if len < 0 {
      return Einval;
    }
    var foot := 4 + len;
    if buf[foot + 3] != MAGIC_FOOT {
      return Efbig;
    }
    if buf[1] >= CHKSUM_FLAG {
      var cs0 := CalcChecksum(buf, foot);
      var cs1 := Word(buf[foot], buf[foot + 1]);
      return if cs0 != cs1 then Eagain else Ok;
    }
    return Ok;
  }

  /** Four bytes stored over `s` at `at`. */
  function Splice(s: seq<Byte>, at: nat, four: seq<Byte>): (t: seq<Byte>)
    requires |four| == 4 && at + 4 <= |s|
    ensures |t| == |s|
  {
    s[..at] + four + s[at + 4..]
  }

  function Header(sz: int): (h: seq<Byte>)
    requires 0 <= sz < 0x1_0000
    ensures |h| == 4
  {
    [MAGIC_HEAD, CHKSUM_FLAG, sz / 256, sz % 256]
  }

  function Footer(sum: int): (f: seq<Byte>)
    requires 0 <= sum < 0x1_0000
    ensures |f| == 4
  {
    [sum / 256, sum % 256, 0, MAGIC_FOOT]
  }

  /** The sum set_headfoot stores for a buffer `s` and a declared payload size. */
  function StoredSum(s: seq<Byte>, sz: int): (c: int)
    requires 0 <= sz < 0x1_0000 && sz + 8 <= |s|
    ensures 0 <= c < 0x1_0000
  {
    Checksum(Splice(s, 0, Header(sz)), 4 + sz)
  }

  /** The buffer set_headfoot leaves. */
  function Framed(s: seq<Byte>, sz: int): (t: seq<Byte>)
    requires 0 <= sz < 0x1_0000 && sz + 8 <= |s|
    ensures |t| == |s|
  {
    Splice(Splice(s, 0, Header(sz)), 4 + sz, Footer(StoredSum(s, sz)))
  }

  /** The four-byte stores of the header and footer macros. */
  method Put(buf: array<Byte>, at: nat, four: seq<Byte>)
    requires |four| == 4 && at + 4 <= buf.Length
    modifies buf
    ensures buf[..] == Splice(old(buf[..]), at, four)
  {
    buf[at], buf[at + 1], buf[at + 2], buf[at + 3] := four[0], four[1], four[2], four[3];
  }

  method SetHeadfoot(buf: array<Byte>, sz: int)
    requires 0 <= sz < 0x1_0000 && sz + 8 <= buf.Length
    modifies buf
    ensures buf[..] == Framed(old(buf[..]), sz)
  {
    Put(buf, 0, Header(sz));
    ghost var headed := buf[..];
    var cs := CalcChecksum(buf, 4 + sz);
    assert cs == Checksum(headed, 4 + sz);
    Put(buf, 4 + sz, Footer(cs));
    assert buf[..] == Splice(headed, 4 + sz, Footer(cs));
  }

  // ---------------------------------------------------------------- reading in chunks

  /** What one turn of the read loop meets; running out of events is the poll timeout. */
  datatype Event = Readable(n: nat) | PollFails | ReadFails

  /**
   * One turn of the loop, wanting `want` of `avail` bytes: the status, the number of bytes placed, and whether the
   * loop ends.
   */
  function Turn(e: Event, want: nat, avail: nat): (r: (Status, nat, bool))
    ensures r.1 <= want && r.1 <= avail && (r.0 == Ok && r.2 ==> r.1 == want)
  {
    match e
    case PollFails => (PollError, 0, true)
    case ReadFails => (ReadError, 0, true)
    case Readable(n) =>
      var m := Min(n, Min(want, avail));
      (Ok, m, m == want)
  }

  /** Outcome of ready_read and the number of bytes placed. */
  function Receive(script: seq<Event>, want: nat, avail: nat): (r: (Status, nat))
    ensures r.1 <= want && r.1 <= avail
    ensures r.0 == Ok ==> r.1 == want
  {
    if script == [] then (Timeout, 0) else
      var (st, m, ends) := Turn(script[0], want, avail);
      if ends then (st, m) else
        var rest := Receive(script[1..], want - m, avail - m);
        (rest.0, m + rest.1)
  }

  /** The final outcome when `at` bytes are already in the buffer. */
  function Continue(script: seq<Event>, want: nat, avail: nat, at: nat): (Status, nat) {
    var rest := Receive(script, want, avail);
    (rest.0, at + rest.1)
  }

  lemma ReceiveStep(script: seq<Event>, i: nat, want: nat, avail: nat, at: nat)
    requires i <= |script|
    ensures Continue(script[i..], want, avail, at) ==
              if i == |script| then (Timeout, at) else
                var (st, m, ends) := Turn(script[i], want, avail);
                if ends then (st, at + m) else Continue(script[i + 1..], want - m, avail - m, at + m)
  {
    if i < |script| { assert script[i..][1..] == script[i + 1..]; }
  }

  lemma Advance(all: seq<Byte>, at: nat, n: nat)
    requires at + n <= |all|
    ensures all[at..][n..] == all[at + n..]
  {
  }

  class Port {
    var incoming: seq<Byte>

    constructor (bytes: seq<Byte>)
      ensures incoming == bytes
    {
      incoming := bytes;
    }

    /** read(): up to `size` of the `n` bytes that have arrived. */
    method Read(buf: array<Byte>, at: nat, size: nat, n: nat) returns (m: nat)
      requires at + size <= buf.Length
      modifies this, buf
      ensures m == Min(n, Min(size, |old(incoming)|))
      ensures incoming == old(incoming)[m..]
      ensures forall j | 0 <= j < at :: buf[j] == old(buf[j])
      ensures forall j | at <= j < at + m :: buf[j] == old(incoming)[j - at]
    {
      m := Min(n, Min(size, |incoming|));
      var i := 0;
      while i < m
        modifies buf
        invariant 0 <= i <= m
        invariant forall j | 0 <= j < at :: buf[j] == old(buf[j])
        invariant forall j | at <= j < at + i :: buf[j] == incoming[j - at]
      {
        buf[at + i] := incoming[i];
        i := i + 1;
      }
      incoming := incoming[m..];
    }

    /** The loop body of ready_read: poll, then read. */
    method TakeTurn(buf: array<Byte>, at: nat, size: nat, e: Event) returns (st: Status, m: nat, ends: bool)
      requires at + size <= buf.Length
      modifies this, buf
      ensures (st, m, ends) == Turn(e, size, |old(incoming)|)
      ensures incoming == old(incoming)[m..]
      ensures forall j | 0 <= j < at :: buf[j] == old(buf[j])
      ensures forall j | at <= j < at + m :: buf[j] == old(incoming)[j - at]
    {
      st, m, ends := Ok, 0, true;
      match e
      case PollFails => st := PollError;
      case ReadFails => st := ReadError;
      case Readable(n) =>
        m := Read(buf, at, size, n);
        ends := m == size;
    }
  }

  /** ready_read: poll and read until the buffer is full. */
  method ReadyRead(port: Port, buf: array<Byte>, script: seq<Event>) returns (st: Status)
    modifies port, buf
    ensures var r := Receive(script, buf.Length, |old(port.incoming)|);
            st == r.0 && buf[..r.1] == old(port.incoming)[..r.1] && port.incoming == old(port.incoming)[r.1..]
  {
    var size: nat, at: nat, i: nat := buf.Length, 0, 0;
    ghost var all := port.incoming;
    ghost var r := Receive(script, buf.Length, |all|);
    var done := false;
    st := Timeout;
    while !done
      invariant at + size == buf.Length && at <= |all| && i <= |script|
      invariant port.incoming == all[at..]
      invariant forall j | 0 <= j < at :: buf[j] == all[j]
      invariant done ==> r == (st, at)
      invariant !done ==> r == Continue(script[i..], size, |all| - at, at)
      decreases |script| - i, !done
    {
      ReceiveStep(script, i, size, |all| - at, at);
      if i == |script| {
        st, done := Timeout, true;
      } else {
        var n;
        st, n, done := port.TakeTurn(buf, at, size, script[i]);
        Advance(all, at, n);
        size, at, i := size - n, at + n, i + 1;
      }
    }
  }

  /** Arrivals that keep coming until everything wanted is there. */
  ghost predicate Delivers(script: seq<Event>, want: nat) {
    && (forall e | e in script :: e.Readable?)
    && Total(script) >= want
    && script != []
  }

  function Total(script: seq<Event>): nat {
    if script == [] then 0 else (if script[0].Readable? then script[0].n else 0) + Total(script[1..])
  }

  /** However the bytes are cut into reads, all that was wanted arrives. */
  lemma {:induction false} ChunksDoNotMatter(script: seq<Event>, want: nat, avail: nat)
    requires Delivers(script, want) && want <= avail
    ensures Receive(script, want, avail) == (Ok, want)
  {
    var m := Min(script[0].n, Min(want, avail));
    if m != want {
      ChunksDoNotMatter(script[1..], want - m, avail - m);
    }
  }

  // ---------------------------------------------------------------- orbital data

  /** What get_orbitaldata writes: the driver fills the payload of a fresh buffer, then the frame is set around it. */
  function Frame(payload: seq<Byte>, junk: seq<Byte>): seq<Byte>
    requires |junk| == 8
  {
    Framed(junk[..4] + payload + junk[4..], ToUInt16(|payload|))
  }

  /** get_orbitaldata; `written` is what write() returns: an error, or how many bytes of the frame went out. */
  method GetOrbitaldata(payload: seq<Byte>, junk: seq<Byte>, mallocFails: bool, ioctlFails: bool, written: int)
    returns (st: Status, out: seq<Byte>)
    requires |junk| == 8 && written <= |payload| + 8
    ensures if mallocFails then (st, out) == (Enomem, [])
            else if ioctlFails then (st, out) == (IoctlError, [])
            else if written < 0 then (st, out) == (WriteError, [])
            else st == Ok && |Frame(payload, junk)| == |payload| + 8 && out == Frame(payload, junk)[..written]
  {
    if mallocFails {
      return Enomem, [];
    }
    if ioctlFails {
      return IoctlError, [];
    }
    var raw := junk[..4] + payload + junk[4..];
    var buf := new Byte[|payload| + 8](i requires 0 <= i < |payload| + 8 => raw[i]);
    assert buf[..] == raw;
    SetHeadfoot(buf, ToUInt16(|payload|));
    if written < 0 {
      return WriteError, [];
    }
    assert buf[..written] == buf[..][..written];
    st, out := Ok, buf[..written];
  }

  /** What set_orbitaldata returns and, if it gets that far, hands to the driver. */
  function Stored(incoming: seq<Byte>, datasize: nat, script: seq<Event>, ioctlFails: bool): (Status, seq<Byte>)
    requires |incoming| >= datasize + 8 ==> InBounds(incoming[..datasize + 8])
  {
    var r := Receive(script, datasize + 8, |incoming|);
    if r.0 != Ok then (r.0, []) else
      var st := Check(incoming[..datasize + 8]);
      if st != Ok then (st, []) else (if ioctlFails then IoctlError else Ok, incoming[4..4 + datasize])
  }

  method SetOrbitaldata(port: Port, datasize: nat, script: seq<Event>, mallocFails: bool, ioctlFails: bool)
    returns (st: Status, driver: seq<Byte>)
    requires |port.incoming| >= datasize + 8 ==> InBounds(port.incoming[..datasize + 8])
    modifies port
    ensures if mallocFails then (st, driver) == (Enomem, []) && port.incoming == old(port.incoming)
            else (st, driver) == Stored(old(port.incoming), datasize, script, ioctlFails)
  {
    driver := [];
    if mallocFails {
      return Enomem, [];
    }
    var buf := new Byte[datasize + 8];
    st := ReadyRead(port, buf, script);
    if st != Ok {
      return st, [];
    }
    assert buf[..] == old(port.incoming)[..datasize + 8];
    st := CheckHeadfoot(buf);
    if st != Ok {
      return st, [];
    }
    driver := buf[4..4 + datasize];
    assert driver == buf[..][4..4 + datasize] == old(port.incoming)[4..4 + datasize];
    if ioctlFails {
      st := IoctlError;
    }
  }

  // ---------------------------------------------------------------- main results

  /** A frame is accepted whatever its size: builder and checker narrow the length the same way. */
  lemma OwnFrameAccepted(s: seq<Byte>, sz: int)
    requires 0 <= sz < 0x1_0000 && sz + 8 <= |s|
    ensures InBounds(Framed(s, sz)) && Length(Framed(s, sz)) == sz && Check(Framed(s, sz)) == Ok
  {
    var t := Framed(s, sz);
    var c := Covered(4 + sz);
    assert t[..c] == Splice(s, 0, Header(sz))[..c];
    var sum := StoredSum(s, sz);
    assert t[4 + sz] == sum / 256 && t[5 + sz] == sum % 256 && t[7 + sz] == MAGIC_FOOT;
  }

  /** The footer of the frame emitted for a payload. */
  function FooterFor(payload: seq<Byte>, junk: seq<Byte>): (f: seq<Byte>)
    requires |junk| == 8
    ensures |f| == 4
  {
    Footer(StoredSum(junk[..4] + payload + junk[4..], ToUInt16(|payload|)))
  }

  /** The payload fits the 16-bit length field, or the misplaced footer happens to equal the bytes it overwrites. */
  predicate Survives(payload: seq<Byte>, junk: seq<Byte>)
    requires |junk| == 8
  {
    |payload| < 0x1_0000 || payload[ToUInt16(|payload|)..ToUInt16(|payload|) + 4] == FooterFor(payload, junk)
  }

  /**
   * The whole trip, in any read chunks: the frame is accepted, and the driver gets its own payload back exactly
   * when the payload survives framing.
   */
  lemma OrbitalRoundTripIff(payload: seq<Byte>, junk: seq<Byte>, later: seq<Byte>, script: seq<Event>)
    requires |junk| == 8 && Delivers(script, |payload| + 8)
    ensures |Frame(payload, junk)| == |payload| + 8
    ensures InBounds((Frame(payload, junk) + later)[..|payload| + 8])
    ensures var r := Stored(Frame(payload, junk) + later, |payload|, script, false);
            r.0 == Ok && (r.1 == payload <==> Survives(payload, junk))
  {
    var raw, n := junk[..4] + payload + junk[4..], |payload|;
    var frame, sz := Frame(payload, junk), ToUInt16(n);
    OwnFrameAccepted(raw, sz);
    ChunksDoNotMatter(script, n + 8, |frame + later|);
    assert (frame + later)[..n + 8] == frame;
    assert (frame + later)[4..4 + n] == frame[4..4 + n];
    FramedPayload(payload, junk);
  }

  /**
   * The payload part of an emitted frame: intact up to 65535 bytes, beyond that overwritten by the footer at the
   * size modulo 65536.
   */
  lemma FramedPayload(payload: seq<Byte>, junk: seq<Byte>)
    requires |junk| == 8
    ensures Frame(payload, junk)[4..4 + |payload|] == payload <==> Survives(payload, junk)
  {
    var raw, n, sz := junk[..4] + payload + junk[4..], |payload|, ToUInt16(|payload|);
    RawPayload(payload, junk);
    FrameParts(raw, sz);
    if n >= 0x1_0000 {
      FooterInPayload(Framed(raw, sz), raw, n, sz, FooterFor(payload, junk));
      Replaced(payload, sz, FooterFor(payload, junk));
    }
  }

  lemma FooterInPayload(frame: seq<Byte>, raw: seq<Byte>, n: nat, sz: nat, foot: seq<Byte>)
    requires |frame| == |raw| == n + 8 && sz + 4 <= n && |foot| == 4
    requires frame[4..4 + sz] == raw[4..4 + sz] && frame[4 + sz..8 + sz] == foot && frame[8 + sz..] == raw[8 + sz..]
    ensures frame[4..4 + n] == raw[4..4 + n][..sz] + foot + raw[4..4 + n][sz + 4..]
  {
    assert raw[4..4 + sz] == raw[4..4 + n][..sz];
    assert raw[8 + sz..][..n - sz - 4] == raw[4..4 + n][sz + 4..];
    FourParts(frame, 4, 4 + sz, 8 + sz, 4 + n);
  }

  lemma Replaced(payload: seq<Byte>, sz: nat, foot: seq<Byte>)
    requires sz + 4 <= |payload| && |foot| == 4
    ensures payload[..sz] + foot + payload[sz + 4..] == payload <==> payload[sz..sz + 4] == foot
  {
    Pieces(payload[..sz], foot, payload[sz + 4..]);
    assert payload == payload[..sz] + payload[sz..sz + 4] + payload[sz + 4..];
  }

  lemma RawPayload(payload: seq<Byte>, junk: seq<Byte>)
    requires |junk| == 8
    ensures (junk[..4] + payload + junk[4..])[4..4 + |payload|] == payload
  {
  }

  lemma FourParts(t: seq<Byte>, a: nat, b: nat, c: nat, d: nat)
    requires a <= b <= c <= d <= |t|
    ensures t[a..d] == t[a..b] + t[b..c] + t[c..][..d - c]
  {
  }

  /**
   * Up to 32763 bytes the checker accepts a flagged buffer exactly when both magic bytes are there and the byte
   * sum of header and payload is congruent to the stored sum.
   */
  lemma AcceptedIff(s: seq<Byte>)
    requires |s| >= 4 && InBounds(s) && s[1] >= CHKSUM_FLAG && Length(s) <= 32763
    ensures Check(s) == Ok <==>
              s[0] == MAGIC_HEAD && s[4 + Length(s) + 3] == MAGIC_FOOT
              && (Sum(s[..4 + Length(s)]) - Word(s[4 + Length(s)], s[5 + Length(s)])) % 0x1_0000 == 0
  {
    if s[0] == MAGIC_HEAD {
      Congruent(Sum(s[..4 + Length(s)]), Word(s[4 + Length(s)], s[5 + Length(s)]));
    }
  }

  lemma Congruent(n: nat, stored: int)
    requires 0 <= stored < 0x1_0000
    ensures n % 0x1_0000 == stored <==> (n - stored) % 0x1_0000 == 0
  {
  }

  lemma {:induction false} SumUpdate(s: seq<Byte>, i: nat, b: Byte)
    requires i < |s|
    ensures Sum(s[i := b]) == Sum(s) - s[i] + b
  {
    if i == |s| - 1 {
      assert s[i := b][..i] == s[..i];
    } else {
      assert s[i := b][..|s| - 1] == s[..|s| - 1][i := b];
      SumUpdate(s[..|s| - 1], i, b);
    }
  }

  /**
   * One corrupted payload byte is caught exactly when it lies in the part the narrowed length covers: always up to
   * 32763 payload bytes, never beyond.
   */
  lemma CorruptionCaughtIff(s: seq<Byte>, sz: int, i: nat, b: Byte)
    requires 0 <= sz < 0x1_0000 && sz + 8 <= |s| && i < sz && b != s[4 + i]
    ensures InBounds(Framed(s, sz)[4 + i := b])
    ensures Check(Framed(s, sz)[4 + i := b]) == if 4 + i < Covered(4 + sz) then Eagain else Ok
    ensures Check(Framed(s, sz)[4 + i := b]) == if sz <= 32763 then Eagain else Ok
  {
    OwnFrameAccepted(s, sz);
    FrameParts(s, sz);
    var t, c := Framed(s, sz), Covered(4 + sz);
    var u := t[4 + i := b];
    assert t[4..4 + sz][i] == s[4 + i];
    CheckAfterFlip(t, i, b);
  }

  /** An accepted buffer after one payload byte changed: only the sum can notice. */
  lemma CheckAfterFlip(t: seq<Byte>, i: nat, b: Byte)
    requires InBounds(t) && Check(t) == Ok && t[1] >= CHKSUM_FLAG && i < Length(t) && b != t[4 + i]
    ensures InBounds(t[4 + i := b])
    ensures Check(t[4 + i := b]) == if 4 + i < Covered(4 + Length(t)) then Eagain else Ok
  {
    var u, foot := t[4 + i := b], 4 + Length(t);
    assert u[0] == t[0] && u[1] == t[1] && Length(u) == Length(t);
    assert u[foot] == t[foot] && u[foot + 1] == t[foot + 1] && u[foot + 3] == t[foot + 3];
    SumAfterFlip(t, foot, 4 + i, b);
  }

  lemma SumAfterFlip(t: seq<Byte>, n: int, i: nat, b: Byte)
    requires Covered(n) <= |t| && i < |t| && b != t[i]
    ensures Checksum(t[i := b], n) == Checksum(t, n) <==> i >= Covered(n)
  {
    var c := Covered(n);
    if i < c {
      assert t[i := b][..c] == t[..c][i := b];
      SumUpdate(t[..c], i, b);
      DifferentResidue(Sum(t[..c]), b as int - t[i] as int);
    } else {
      assert t[i := b][..c] == t[..c];
    }
  }

  lemma FrameParts(s: seq<Byte>, sz: int)
    requires 0 <= sz < 0x1_0000 && sz + 8 <= |s|
    ensures var t := Framed(s, sz);
            t[..4] == Header(sz) && t[4..4 + sz] == s[4..4 + sz]
            && t[4 + sz..8 + sz] == Footer(StoredSum(s, sz)) && t[8 + sz..] == s[8 + sz..]
  {
    var h := Splice(s, 0, Header(sz));
    assert h[4..4 + sz] == s[4..4 + sz] && h[8 + sz..] == s[8 + sz..];
    assert h[..4 + sz][..4] == Header(sz) && h[..4 + sz][4..] == h[4..4 + sz];
    Pieces(h[..4 + sz], Footer(StoredSum(s, sz)), h[8 + sz..]);
  }

  lemma Pieces(a: seq<Byte>, b: seq<Byte>, c: seq<Byte>)
    ensures var t := a + b + c; t[..|a|] == a && t[|a|..|a| + |b|] == b && t[|a| + |b|..] == c
  {
  }

  lemma DifferentResidue(n: nat, d: int)
    requires -256 < d < 256 && d != 0 && n + d >= 0
    ensures (n + d) % 0x1_0000 != n % 0x1_0000
  {
  }

  // ---------------------------------------------------------------- what the bytes are

  /** The declared length of a buffer, high byte first. */
  function Declared(s: seq<Byte>): int
    requires |s| >= 4
  {
    256 * s[2] as int + s[3] as int
  }

  /** The sum of `n` equal bytes. */
  lemma {:induction false} SumOfEqual(s: seq<Byte>, b: Byte)
    requires forall i | 0 <= i < |s| :: s[i] == b
    ensures Sum(s) == |s| * b
  {
    if s != [] { SumOfEqual(s[..|s| - 1], b); }
  }

  /** The frame byte by byte: magic, flag, length and payload, then the sum, high byte first, a zero and magic. */
  lemma FrameLayout(s: seq<Byte>, sz: int)
    requires 0 <= sz < 0x1_0000 && sz + 8 <= |s|
    ensures var t := Framed(s, sz);
            && t[0] == 0xA0 && t[1] == 0x80 && Declared(t) == sz && t[4..4 + sz] == s[4..4 + sz]
            && 256 * t[4 + sz] as int + t[5 + sz] as int == Sum(t[..Covered(4 + sz)]) % 0x1_0000
            && t[6 + sz] == 0 && t[7 + sz] == 0xB0 && t[8 + sz..] == s[8 + sz..]
  {
    var t, sum, c := Framed(s, sz), StoredSum(s, sz), Covered(4 + sz);
    FrameParts(s, sz);
    assert t[..c] == Splice(s, 0, Header(sz))[..c];
    assert t[..4][0] == t[0] && t[..4][1] == t[1] && t[..4][2] == t[2] && t[..4][3] == t[3];
    var f := t[4 + sz..8 + sz];
    assert f[0] == t[4 + sz] && f[1] == t[5 + sz] && f[2] == t[6 + sz] && f[3] == t[7 + sz];
  }

  /** All four outcomes of a check: the first magic byte goes first, then the last, and the sum only if flagged. */
  lemma CheckOutcome(s: seq<Byte>)
    requires |s| >= 4 && InBounds(s)
    ensures Check(s) == Einval <==> s[0] != 0xA0
    ensures Check(s) == Efbig <==> s[0] == 0xA0 && s[7 + Declared(s)] != 0xB0
    ensures Check(s) == Eagain <==>
              s[0] == 0xA0 && s[7 + Declared(s)] == 0xB0 && s[1] >= 0x80
              && Sum(s[..Covered(4 + Declared(s))]) % 0x1_0000 !=
                   256 * s[4 + Declared(s)] as int + s[5 + Declared(s)] as int
    ensures Check(s) in {Einval, Efbig, Eagain, Ok}
  {
  }

  /** What the check refuses is not stored, in whatever reads it comes. */
  lemma RefusedNotStored(frame: seq<Byte>, later: seq<Byte>, datasize: nat, script: seq<Event>, ioctlFails: bool)
    requires |frame| == datasize + 8 && InBounds(frame) && Check(frame) != Ok && Delivers(script, datasize + 8)
    ensures (frame + later)[..datasize + 8] == frame
    ensures Stored(frame + later, datasize, script, ioctlFails) == (Check(frame), [])
  {
    ChunksDoNotMatter(script, datasize + 8, |frame + later|);
  }

  /** A frame with one payload byte changed, sent back in any reads, is refused and never reaches the driver. */
  lemma CorruptedNeverStored(payload: seq<Byte>, junk: seq<Byte>, i: nat, b: Byte, later: seq<Byte>, script: seq<Event>)
    requires |junk| == 8 && |payload| <= 32763 && i < |payload| && b != payload[i]
    requires Delivers(script, |payload| + 8)
    ensures |Frame(payload, junk)| == |payload| + 8
    ensures var sent := Frame(payload, junk)[4 + i := b] + later;
            InBounds(sent[..|payload| + 8]) && Stored(sent, |payload|, script, false) == (Eagain, [])
  {
    FrameCorrupted(payload, junk, i, b);
    RefusedNotStored(Frame(payload, junk)[4 + i := b], later, |payload|, script, false);
  }

  lemma FrameCorrupted(payload: seq<Byte>, junk: seq<Byte>, i: nat, b: Byte)
    requires |junk| == 8 && |payload| <= 32763 && i < |payload| && b != payload[i]
    ensures |Frame(payload, junk)| == |payload| + 8 && InBounds(Frame(payload, junk)[4 + i := b])
    ensures Check(Frame(payload, junk)[4 + i := b]) == Eagain
  {
    var raw := junk[..4] + payload + junk[4..];
    RawByte(payload, junk, i);
    assert ToUInt16(|payload|) == |payload|;
    assert Frame(payload, junk) == Framed(raw, |payload|);
    CorruptionCaughtIff(raw, |payload|, i, b);
  }

  lemma RawByte(payload: seq<Byte>, junk: seq<Byte>, i: nat)
    requires |junk| == 8 && i < |payload|
    ensures (junk[..4] + payload + junk[4..])[4 + i] == payload[i]
  {
  }
}
