/** Two players, each filling a bounded FIFO from a file while a decoder drains it. */
module DualPlayers {
  import opened CArith

  const ELEMENT := 7680        // FIFO_ELEMENT_SIZE: 3840 * 2
  const FIRST_PUSHES := 19     // FIFO_ELEMENT_NUM - 1
  const PUSH_NUM_MAX := 10     // PLAYER_FIFO_PUSH_NUM_MAX

  /** Number of pushes app_refill_simple_fifo attempts for a vacancy it saw. */
  function PushCount(vacant: nat): nat {
    if vacant > 7680 then Min(vacant / 7680, 10) else 0
  }

  // ---------------------------------------------------------------- one player as a state machine

  datatype Result = ResultOk | ResultErr | ResultEof | ResultFull
  datatype Mode = Normal | EsEnd | NotStarted

  /** Where the player thread is; each name says what comes next. */
  datatype Pc =
    | Closed
    | FirstRead(i: nat) | FirstOffer(i: nat)
    | Playing
    | RefillRead(i: nat, count: nat) | RefillOffer(i: nat, count: nat)
    | Ended(mode: Mode)

  datatype Player = Player(
    capacity: nat,          // room of the FIFO
    content: seq<Byte>,     // the opened file
    pos: nat,               // file offset
    size: int,              // info->file.size
    readBuf: seq<Byte>,     // info->fifo.read_buf
    queue: seq<Byte>,       // in the FIFO
    consumed: seq<Byte>,    // taken by the decoder
    dropped: bool,          // an offer was refused
    pc: Pc
  )

  /** Atomic steps: of the thread, with the outcome of its system calls, and of the decoder. */
  datatype Act =
    | Open(content: seq<Byte>)
    | Close
    | ReadFails
    | Read(n: nat)
    | Offer
    | Snapshot
    | TimeUp
    | Decode(k: nat)

  predicate Reading(pc: Pc) { pc.FirstRead? || pc.RefillRead? }
  predicate Offering(pc: Pc) { pc.FirstOffer? || pc.RefillOffer? }

  predicate Enabled(p: Player, a: Act) {
    match a
    case Open(c) => p.pc.Closed? && 0 < |c| < 0x8000_0000
    case Close => p.pc.Ended?
    case ReadFails => Reading(p.pc)
    case Read(n) =>
      && Reading(p.pc) && p.pos <= |p.content|
      && n <= Min(7680, |p.content| - p.pos) && (n == 0 <==> p.pos == |p.content|)
    case Offer => Offering(p.pc)
    case Snapshot => p.pc.Playing?
    case TimeUp => p.pc.Playing?
    case Decode(k) => k <= |p.queue|
  }

  /**
   * Where a finished push leads: the first-push loop stops at anything but OK, the refill loop only at an error,
   * and its last result decides.
   */
  function AfterPush(pc: Pc, r: Result): Pc {
    match pc
    case FirstRead(i) => AfterFirst(i, r)
    case FirstOffer(i) => AfterFirst(i, r)
    case RefillRead(i, count) => AfterRefill(i, count, r)
    case RefillOffer(i, count) => AfterRefill(i, count, r)
    case _ => pc
  }

  function AfterFirst(i: nat, r: Result): Pc {
    if r == ResultErr then Ended(NotStarted)
    else if r == ResultOk && i + 1 < FIRST_PUSHES then FirstRead(i + 1)
    else Playing
  }

  function AfterRefill(i: nat, count: nat, r: Result): Pc {
    if r == ResultErr then Ended(Normal)
    else if i + 1 < count then RefillRead(i + 1, count)
    else if r == ResultEof then Ended(EsEnd)
    else Playing
  }

  /** The offer that follows a read. */
  function OfferAt(pc: Pc): Pc
    requires Reading(pc)
  {
    if pc.FirstRead? then FirstOffer(pc.i) else RefillOffer(pc.i, pc.count)
  }

  function EofOrOk(size: int): Result { if size == 0 then ResultEof else ResultOk }

  function Next(p: Player, a: Act): Player
    requires Enabled(p, a)
  {
    match a
    case Open(c) => Player(p.capacity, c, 0, |c|, p.readBuf, [], [], false, FirstRead(0))
    case Close => Fresh(p.capacity).(readBuf := p.readBuf)
    case ReadFails => p.(pc := AfterPush(p.pc, ResultErr))
    case Read(n) =>
      var q := p.(readBuf := p.content[p.pos..p.pos + n], pos := p.pos + n);
      if n == 0 then q.(pc := AfterPush(p.pc, EofOrOk(p.size)))
      else q.(pc := OfferAt(p.pc))
    case Offer =>
      if |p.queue| + |p.readBuf| > p.capacity then p.(dropped := true, pc := AfterPush(p.pc, ResultFull))
      else
        var size := p.size - |p.readBuf|;
        p.(queue := p.queue + p.readBuf, size := size, pc := AfterPush(p.pc, EofOrOk(size)))
    case Snapshot =>
      var count := PushCount(if |p.queue| <= p.capacity then p.capacity - |p.queue| else 0);
      if count == 0 then p else p.(pc := RefillRead(0, count))
    case TimeUp => p.(pc := Ended(Normal))
    case Decode(k) => p.(consumed := p.consumed + p.queue[..k], queue := p.queue[k..])
  }

  /** Any sequence of steps; one that cannot happen is skipped. */
  function Advance(p: Player, a: Act): Player { if Enabled(p, a) then Next(p, a) else p }

  function RunPlayer(p: Player, acts: seq<Act>): Player
    decreases |acts|
  {
    if acts == [] then p else RunPlayer(Advance(p, acts[0]), acts[1..])
  }

  // ---------------------------------------------------------------- invariant

  /** Bytes read from the file and not yet offered. */
  function InHand(p: Player): seq<Byte> { if Offering(p.pc) then p.readBuf else [] }

  /** The bytes of the file, in order: taken, queued, in hand. */
  ghost predicate Conserved(p: Player) {
    && p.pos <= |p.content| && p.consumed + p.queue + InHand(p) == p.content[..p.pos]
    && p.size == |p.content| - p.pos + |InHand(p)|
  }

  /** Room that is certain to be there for the pushes to come, whatever the decoder does meanwhile. */
  ghost predicate Room(p: Player) {
    match p.pc
    case FirstRead(i) => i < FIRST_PUSHES && |p.queue| <= 7680 * i
    case FirstOffer(i) => i < FIRST_PUSHES && |p.queue| <= 7680 * i
    case RefillRead(i, count) => i < count && |p.queue| + 7680 * (count - i) <= p.capacity
    case RefillOffer(i, count) => i < count && |p.queue| + 7680 * (count - i) <= p.capacity
    case _ => true
  }

  ghost predicate Inv(p: Player) {
    && 7680 * FIRST_PUSHES <= p.capacity && |p.queue| <= p.capacity
    && Conserved(p) && Room(p) && !p.dropped
    && (Offering(p.pc) ==> 0 < |p.readBuf| <= 7680)
    && (p.pc == Ended(EsEnd) ==> p.size == 0)
  }

  lemma DecodeKeepsInv(p: Player, k: nat)
    requires Inv(p) && k <= |p.queue|
    ensures Inv(Next(p, Decode(k)))
  {
    assert p.queue == p.queue[..k] + p.queue[k..];
    assert p.consumed + p.queue[..k] + p.queue[k..] + InHand(p) == p.consumed + p.queue + InHand(p);
  }

  lemma ReadKeepsInv(p: Player, n: nat)
    requires Inv(p) && Enabled(p, Read(n))
    ensures Inv(Next(p, Read(n)))
  {
    var q := Next(p, Read(n));
    assert p.content[..p.pos] + p.content[p.pos..p.pos + n] == p.content[..p.pos + n];
    assert p.consumed + p.queue + [] == p.consumed + p.queue;
    assert p.consumed + p.queue + q.readBuf == q.content[..q.pos];
  }

  lemma OfferKeepsInv(p: Player)
    requires Inv(p) && Enabled(p, Offer)
    ensures Inv(Next(p, Offer))
    ensures Next(p, Offer).queue == p.queue + p.readBuf
  {
    var q := Next(p, Offer);
    assert |p.queue| + |p.readBuf| <= p.capacity;
    assert p.consumed + (p.queue + p.readBuf) + [] == p.consumed + p.queue + p.readBuf;
  }

  lemma StepKeepsInv(p: Player, a: Act)
    requires Inv(p)
    ensures Inv(Advance(p, a))
  {
    if Enabled(p, a) {
      match a
      case Decode(k) => DecodeKeepsInv(p, k);
      case Read(n) => ReadKeepsInv(p, n);
      case Offer => OfferKeepsInv(p);
      case _ =>
    }
  }

  lemma {:induction false} RunKeepsInv(p: Player, acts: seq<Act>)
    requires Inv(p)
    ensures Inv(RunPlayer(p, acts))
    decreases |acts|
  {
    if acts != [] {
      StepKeepsInv(p, acts[0]);
      RunKeepsInv(Advance(p, acts[0]), acts[1..]);
    }
  }

  function Fresh(capacity: nat): Player { Player(capacity, [], 0, 0, [], [], [], false, Closed) }

  // ---------------------------------------------------------------- two players

  datatype System = System(p0: Player, p1: Player)
  datatype Event = Event(first: bool, act: Act)

  /** Any interleaving of two threads and two decoders. */
  function RunSystem(s: System, events: seq<Event>): System
    decreases |events|
  {
    if events == [] then s else
      var e := events[0];
      RunSystem(if e.first then s.(p0 := Advance(s.p0, e.act)) else s.(p1 := Advance(s.p1, e.act)), events[1..])
  }

  /** The steps of one player among all. */
  function Own(events: seq<Event>, first: bool): seq<Act>
    decreases |events|
  {
    if events == [] then []
    else (if events[0].first == first then [events[0].act] else []) + Own(events[1..], first)
  }

  /** Each player ends where its own steps alone would have led it: they share nothing. */
  lemma {:induction false} Independent(s: System, events: seq<Event>)
    ensures RunSystem(s, events) == System(RunPlayer(s.p0, Own(events, true)), RunPlayer(s.p1, Own(events, false)))
    decreases |events|
  {
    if events != [] {
      var e := events[0];
      var mid := if e.first then s.(p0 := Advance(s.p0, e.act)) else s.(p1 := Advance(s.p1, e.act));
      Independent(mid, events[1..]);
      assert ([e.act] + Own(events[1..], e.first))[1..] == Own(events[1..], e.first);
      assert [] + Own(events[1..], !e.first) == Own(events[1..], !e.first);
    }
  }

  /** No byte lost or reordered, and the end-of-stream stop only after the whole file was queued. */
  ghost predicate Faithful(p: Player) {
    && !p.dropped && 0 <= p.size <= |p.content|
    && (!Offering(p.pc) ==> p.consumed + p.queue == p.content[..|p.content| - p.size])
    && (p.pc == Ended(EsEnd) ==> p.consumed + p.queue == p.content)
  }

  lemma InvFaithful(p: Player)
    requires Inv(p)
    ensures Faithful(p)
  {
    assert p.consumed + p.queue + [] == p.consumed + p.queue;
    assert |p.consumed + p.queue| + |InHand(p)| == p.pos;
    if p.size == 0 { assert p.content[..|p.content|] == p.content; }
  }

  /** In every interleaving, with FIFOs of at least 19 elements, both players are faithful at every point. */
  lemma BothFaithful(c0: nat, c1: nat, events: seq<Event>)
    requires 7680 * FIRST_PUSHES <= c0 && 7680 * FIRST_PUSHES <= c1
    ensures var s := RunSystem(System(Fresh(c0), Fresh(c1)), events);
            Faithful(s.p0) && Faithful(s.p1)
  {
    var s := System(Fresh(c0), Fresh(c1));
    Independent(s, events);
    RunKeepsInv(Fresh(c0), Own(events, true));
    RunKeepsInv(Fresh(c1), Own(events, false));
    InvFaithful(RunPlayer(Fresh(c0), Own(events, true)));
    InvFaithful(RunPlayer(Fresh(c1), Own(events, false)));
  }

  /**
   * End of file latches: until the file is closed, nothing more is queued, and every push that completes reports
   * the end or an error.
   */
  lemma {:induction false} EofLatches(p: Player, acts: seq<Act>)
    requires Inv(p) && p.size == 0 && forall a | a in acts :: !a.Open? && !a.Close?
    ensures var q := RunPlayer(p, acts);
            q.size == 0 && q.content == p.content && q.consumed + q.queue == p.consumed + p.queue
    ensures forall n :: Enabled(p, Read(n)) ==> n == 0 && Next(p, Read(n)).pc == AfterPush(p.pc, ResultEof)
    decreases |acts|
  {
    InvFaithful(p);
    if acts != [] {
      StepKeepsInv(p, acts[0]);
      assert acts[0] in acts;
      EofStep(p, acts[0]);
      EofLatches(Advance(p, acts[0]), acts[1..]);
    }
  }

  lemma EofStep(p: Player, a: Act)
    requires Inv(p) && p.size == 0 && !a.Open? && !a.Close?
    ensures var q := Advance(p, a);
            q.size == 0 && q.content == p.content && q.consumed + q.queue == p.consumed + p.queue
  {
    if a.Decode? && Enabled(p, a) {
      assert p.queue == p.queue[..a.k] + p.queue[a.k..];
      assert p.consumed + p.queue[..a.k] + p.queue[a.k..] == p.consumed + p.queue;
    }
  }

  // ---------------------------------------------------------------- progress

  /** A vacancy of more than one element lets in as many whole elements as it has, ten at most; any other none. */
  lemma SnapshotLetsIn(p: Player)
    requires Inv(p) && p.pc == Playing
    ensures var vacant, q := p.capacity - |p.queue|, Next(p, Snapshot);
            if vacant <= 7680 then q == p else
              && q.pc.RefillRead? && q.pc.i == 0 && AsManyAs(vacant, q.pc.count)
              && q == p.(pc := q.pc)
  {
    PushCountIs(p.capacity - |p.queue|);
  }

  /** `c` is the number of whole elements in `vacant`, or ten if that is less. */
  predicate AsManyAs(vacant: int, c: nat) {
    1 <= c <= 10 && 7680 * c <= vacant && (c == 10 || vacant < 7680 * (c + 1))
  }

  lemma PushCountIs(vacant: nat)
    ensures if vacant <= 7680 then PushCount(vacant) == 0 else AsManyAs(vacant, PushCount(vacant))
  {
  }

  /** The number of reads among the steps. */
  function Reads(acts: seq<Act>): nat {
    if acts == [] then 0 else Reads(acts[..|acts| - 1]) + if acts[|acts| - 1].Read? then 1 else 0
  }

  lemma ReadsAppend(acts: seq<Act>, a: Act)
    ensures Reads(acts + [a]) == Reads(acts) + if a.Read? then 1 else 0
  {
    assert (acts + [a])[..|acts|] == acts;
  }

  /** With nothing in hand, the size field is zero exactly at the end of the file. */
  lemma SizeAtEnd(p: Player)
    requires Inv(p) && !Offering(p.pc)
    ensures p.size == 0 <==> p.pos == |p.content|
  {
  }

  // ---------------------------------------------------------------- the thread's code, the decoder running in between

  lemma {:induction false} RunAppend(p: Player, a: seq<Act>, b: seq<Act>)
    ensures RunPlayer(p, a + b) == RunPlayer(RunPlayer(p, a), b)
    decreases |a|
  {
    if a == [] {
      assert a + b == b;
    } else {
      assert (a + b)[1..] == a[1..] + b;
      RunAppend(Advance(p, a[0]), a[1..], b);
    }
  }

  /** `q` is reached from `p` by `acts`. */
  ghost predicate Reached(p: Player, acts: seq<Act>, q: Player) { Inv(q) && RunPlayer(p, acts) == q }

  lemma ReachedStep(p: Player, acts: seq<Act>, q: Player, a: Act)
    requires Reached(p, acts, q) && Enabled(q, a)
    ensures Reached(p, acts + [a], Next(q, a))
  {
    RunAppend(p, acts, [a]);
    StepKeepsInv(q, a);
    assert RunPlayer(Next(q, a), [a][1..]) == Next(q, a);
  }

  /** Where a refill leads. */
  function AfterRefillLoop(r: Result): Pc {
    if r == ResultErr then Ended(Normal) else if r == ResultEof then Ended(EsEnd) else Playing
  }

  /**
   * A file to play, and whether setting up the FIFO and starting the player succeed. A file that cannot be opened
   * counts as empty.
   */
  datatype Repeat = Repeat(file: seq<Byte>, fifoReady: bool, playStarts: bool)

  class PlayerInfo {
    const capacity: nat
    var content: seq<Byte>
    var pos: nat
    var size: int
    var readBuf: seq<Byte>
    var queue: seq<Byte>
    ghost var consumed: seq<Byte>

    constructor (capacity: nat)
      ensures this.capacity == capacity && State(Closed) == Fresh(capacity)
    {
      this.capacity := capacity;
      content, pos, size, readBuf, queue, consumed := [], 0, 0, [], [], [];
    }

    /** The object as a state of the machine, at a given point of the code. No refused offer is ever part of it. */
    ghost function State(pc: Pc): Player
      reads this
    {
      Player(capacity, content, pos, size, readBuf, queue, consumed, false, pc)
    }

    /** The decoder takes any number of bytes. */
    method Decoder(ghost pc: Pc, ghost acts: seq<Act>, ghost start: Player) returns (ghost acts': seq<Act>)
      requires Reached(start, acts, State(pc))
      modifies this`queue, this`consumed
      ensures Reached(start, acts', State(pc)) && Reads(acts') == Reads(acts)
    {
      var k: nat :| k <= |queue|;
      ReachedStep(start, acts, State(pc), Decode(k));
      ReadsAppend(acts, Decode(k));
      consumed, queue := consumed + queue[..k], queue[k..];
      acts' := acts + [Decode(k)];
    }

    /** read() into read_buf: an error, the end of the file, or any number of bytes up to one element. */
    method ReadFile() returns (ret: int)
      requires pos <= |content|
      modifies this`pos, this`readBuf
      ensures ret == -1 || 0 <= ret
      ensures ret == -1 ==> pos == old(pos) && readBuf == old(readBuf)
      ensures ret >= 0 ==> ret <= Min(7680, |content| - old(pos)) && (ret == 0 <==> old(pos) == |content|)
                           && pos == old(pos) + ret && readBuf == content[old(pos)..pos]
    {
      var fails: bool := *;
      if fails {
        return -1;
      }
      var room := Min(7680, |content| - pos);
      var n: nat :| n <= room && (n == 0 <==> pos == |content|) by {
        assert room <= room && (room == 0 <==> pos == |content|);
      }
      readBuf := content[pos..pos + n];
      pos := pos + n;
      ret := n;
    }

    /** The second half of app_push_simple_fifo: offer what was read and count it. */
    method OfferRead(ret: nat, ghost offering: Pc, ghost acts: seq<Act>, ghost start: Player)
      returns (r: Result, ghost acts': seq<Act>)
      requires Offering(offering) && Reached(start, acts, State(offering)) && ret == |readBuf|
      modifies this`size, this`queue
      ensures Reached(start, acts', State(AfterPush(offering, r))) && Reads(acts') == Reads(acts)
      ensures r == EofOrOk(size)
    {
      ReadsAppend(acts, Offer);
      ReachedStep(start, acts, State(offering), Offer);
      OfferKeepsInv(State(offering));
      if |readBuf| > capacity - |queue| {
        return ResultFull, acts;
      }
      queue := queue + readBuf;
      size := size - ret;
      return EofOrOk(size), acts + [Offer];
    }

    /** The first half of app_push_simple_fifo: read, and settle an error or the end of the file. */
    method ReadStep(ghost pc: Pc, ghost acts: seq<Act>, ghost start: Player) returns (ret: int, ghost acts': seq<Act>)
      requires Reading(pc) && Reached(start, acts, State(pc))
      modifies this`pos, this`readBuf
      ensures ret < 0 ==> Reached(start, acts', State(AfterPush(pc, ResultErr)))
      ensures ret == 0 ==> Reached(start, acts', State(AfterPush(pc, EofOrOk(size))))
      ensures ret > 0 ==> Reached(start, acts', State(OfferAt(pc))) && ret == |readBuf|
      ensures ret >= 0 ==> Reads(acts') == Reads(acts) + 1
      ensures pos >= old(pos) && (ret > 0 ==> pos > old(pos)) && (ret == 0 ==> pos == |content|)
    {
      ghost var before := State(pc);
      ret := ReadFile();
      ghost var a := if ret < 0 then ReadFails else Read(ret);
      ReachedStep(start, acts, before, a);
      ReadsAppend(acts, a);
      acts' := acts + [a];
      ghost var to :=
        if ret < 0 then AfterPush(pc, ResultErr) else if ret == 0 then AfterPush(pc, EofOrOk(size)) else OfferAt(pc);
      assert State(to) == Next(before, a);
    }

    /** app_push_simple_fifo, at any point of the two loops that call it */
    method Push(ghost pc: Pc, ghost acts: seq<Act>, ghost start: Player) returns (r: Result, ghost acts': seq<Act>)
      requires Reading(pc) && Reached(start, acts, State(pc))
      modifies this`pos, this`size, this`readBuf, this`queue, this`consumed
      ensures Reached(start, acts', State(AfterPush(pc, r)))
      ensures r == ResultErr || r == EofOrOk(size)
      ensures r != ResultErr ==> Reads(acts') == Reads(acts) + 1
      ensures pos >= old(pos) && (r != ResultErr ==> pos > old(pos) || pos == |content|)
    {
      var ret;
      ret, acts' := ReadStep(pc, acts, start);
      if ret < 0 {
        r := ResultErr;
      } else if ret == 0 {
        r := EofOrOk(size);
      } else {
        acts' := Decoder(OfferAt(pc), acts', start);
        r, acts' := OfferRead(ret, OfferAt(pc), acts', start);
      }
    }

    /** app_first_push_simple_fifo */
    method FirstPush(ghost acts: seq<Act>, ghost start: Player) returns (ok: bool, ghost acts': seq<Act>)
      requires Reached(start, acts, State(FirstRead(0)))
      modifies this`pos, this`size, this`readBuf, this`queue, this`consumed
      ensures Reached(start, acts', State(if ok then Playing else Ended(NotStarted)))
      ensures ok ==> size == 0 || Reads(acts') == Reads(acts) + 19
    {
      var i := 0;
      var ret := ResultOk;
      acts' := acts;
      ghost var pc := FirstRead(0);
      while i < FIRST_PUSHES && ret == ResultOk
        invariant 0 <= i <= FIRST_PUSHES && ret != ResultFull
        invariant pc == if ret == ResultErr then Ended(NotStarted)
                        else if ret == ResultOk && i < FIRST_PUSHES then FirstRead(i) else Playing
        invariant Reached(start, acts', State(pc))
        invariant ret == ResultEof ==> size == 0
        invariant ret == ResultOk ==> Reads(acts') == Reads(acts) + i
        decreases FIRST_PUSHES - i
      {
        ret, acts' := Push(pc, acts', start);
        pc := AfterPush(pc, ret);
        i := i + 1;
      }
      ok := ret != ResultErr;
    }

    /** The loop of app_refill_simple_fifo: the pushes a vacancy allows. */
    method RefillLoop(pushCount: nat, ghost acts: seq<Act>, ghost start: Player)
      returns (ret: Result, ghost acts': seq<Act>)
      requires pushCount > 0 && Reached(start, acts, State(RefillRead(0, pushCount)))
      modifies this`pos, this`size, this`readBuf, this`queue, this`consumed
      ensures Reached(start, acts', State(AfterRefillLoop(ret))) && ret != ResultFull
      ensures pos >= old(pos)
      ensures ret != ResultErr ==> Reads(acts') == Reads(acts) + pushCount && (pos > old(pos) || pos == |content|)
      ensures ret != ResultErr ==> ret == EofOrOk(size)
    {
      var i := 0;
      ghost var pc := RefillRead(0, pushCount);
      ret, acts' := ResultOk, acts;
      while i < pushCount && ret != ResultErr
        invariant 0 <= i <= pushCount && ret != ResultFull
        invariant pc == if ret != ResultErr && i < pushCount then RefillRead(i, pushCount) else AfterRefillLoop(ret)
        invariant Reached(start, acts', State(pc)) && pos >= old(pos)
        invariant ret != ResultErr ==> Reads(acts') == Reads(acts) + i
        invariant ret != ResultErr && i > 0 ==> ret == EofOrOk(size) && (pos > old(pos) || pos == |content|)
        decreases pushCount - i
      {
        acts' := Decoder(pc, acts', start);
        ret, acts' := Push(pc, acts', start);
        pc := AfterPush(pc, ret);
        i := i + 1;
      }
    }

    /** app_refill_simple_fifo */
    method Refill(ghost acts: seq<Act>, ghost start: Player) returns (ret: Result, ghost acts': seq<Act>)
      requires Reached(start, acts, State(Playing))
      modifies this`pos, this`size, this`readBuf, this`queue, this`consumed
      ensures Reached(start, acts', State(AfterRefillLoop(ret))) && ret != ResultFull
      ensures old(capacity - |queue|) <= 7680 ==> ret == ResultOk && pos == old(pos) && Reads(acts') == Reads(acts)
      ensures old(capacity - |queue|) > 7680 && ret != ResultErr ==>
                && Reads(acts') >= Reads(acts) && AsManyAs(old(capacity - |queue|), Reads(acts') - Reads(acts))
                && (pos > old(pos) || pos == |content|) && (ret == ResultEof <==> pos == |content|)
      ensures pos >= old(pos)
    {
      ret := ResultOk;
      var vacant := capacity - |queue|;
      ReachedStep(start, acts, State(Playing), Snapshot);
      SnapshotLetsIn(State(Playing));
      ReadsAppend(acts, Snapshot);
      acts' := acts + [Snapshot];
      if vacant != 0 && vacant > 7680 {
        var pushCount := vacant / 7680;
        pushCount := if pushCount >= PUSH_NUM_MAX then PUSH_NUM_MAX else pushCount;
        ret, acts' := RefillLoop(pushCount, acts', start);
        SizeAtEnd(State(AfterRefillLoop(ret)));
      }
    }

    /**
     * app_play_process observed for some number of rounds; `timeUp` is the round in which the play time is over. A
     * round is idle if the FIFO has no room for more than one element, as the decoder has not taken enough. Without
     * read errors and before time is up, the play ends with the file, after at most as many rounds as there are idle
     * ones and bytes left.
     */
    method PlayProcess(rounds: nat, timeUp: nat, ghost acts: seq<Act>, ghost start: Player)
      returns (pc: Pc, ghost acts': seq<Act>, ghost idle: nat, ghost failed: bool)
      requires Reached(start, acts, State(Playing))
      modifies this`pos, this`size, this`readBuf, this`queue, this`consumed
      ensures pc in {Playing, Ended(Normal), Ended(EsEnd)} && Reached(start, acts', State(pc))
      ensures pc == Ended(EsEnd) ==> consumed + queue == content
      ensures if failed then pc == Ended(Normal) else pc == Ended(Normal) ==> timeUp < rounds
      ensures timeUp < rounds ==> pc != Playing
      ensures rounds > idle + |content| - old(pos) && rounds <= timeUp && !failed ==> pc == Ended(EsEnd)
    {
      acts', pc, idle, failed := acts, Playing, 0, false;
      var round := 0;
      while round < rounds && pc == Playing
        invariant pc in {Playing, Ended(Normal), Ended(EsEnd)} && Reached(start, acts', State(pc))
        invariant round <= rounds && old(pos) <= pos <= |content|
        invariant pc == Playing ==> round <= idle + pos - old(pos)
        invariant if failed then pc == Ended(Normal) else pc == Ended(Normal) ==> timeUp < rounds
        invariant pc == Playing ==> round <= timeUp
        decreases rounds - round
      {
        if capacity - |queue| <= 7680 { idle := idle + 1; }
        var result;
        result, acts' := Refill(acts', start);
        if result == ResultErr { failed := true; }
        pc := AfterRefillLoop(result);
        if pc == Playing && round == timeUp {
          ReachedStep(start, acts', State(Playing), TimeUp);
          acts' := acts' + [TimeUp];
          pc := Ended(Normal);
        }
        acts' := Decoder(pc, acts', start);
        round := round + 1;
      }
      InvFaithful(State(pc));
    }

    /**
     * One repeat of player_thread, up to the close; the loop goes on only if playing has ended by itself or in
     * time.
     */
    method PlayFile(file: seq<Byte>, rounds: nat, timeUp: nat, fifoReady: bool, playStarts: bool,
                    ghost acts: seq<Act>, ghost start: Player)
      returns (pc: Pc, ghost acts': seq<Act>)
      requires 0 < |file| < 0x8000_0000 && Reached(start, acts, State(Closed))
      modifies this`content, this`pos, this`size, this`readBuf, this`queue, this`consumed
      ensures Reached(start, acts', State(pc))
    {
      ReachedStep(start, acts, State(Closed), Open(file));
      content, pos, size, queue, consumed := file, 0, |file|, [], [];
      acts' := acts + [Open(file)];
      if !fifoReady {
        return FirstRead(0), acts';
      }
      var ok;
      ok, acts' := FirstPush(acts', start);
      if !ok {
        return Ended(NotStarted), acts';
      }
      if !playStarts {
        return Playing, acts';
      }
      ghost var idle, failed;
      pc, acts', idle, failed := PlayProcess(rounds, timeUp, acts', start);
    }

    /** close() and CMN_SimpleFifoClear() at the end of a repeat. */
    method CloseFile(ghost pc: Pc, ghost acts: seq<Act>, ghost start: Player) returns (ghost acts': seq<Act>)
      requires pc.Ended? && Reached(start, acts, State(pc))
      modifies this`content, this`pos, this`size, this`queue, this`consumed
      ensures Reached(start, acts', State(Closed))
    {
      ReachedStep(start, acts, State(pc), Close);
      content, pos, size, queue, consumed := [], 0, 0, [], [];
      acts' := acts + [Close];
    }

    /** player_thread: one file per repeat, each played for some rounds. */
    method PlayerThread(repeats: seq<Repeat>, rounds: nat, timeUp: nat) returns (ghost acts: seq<Act>)
      requires 7680 * FIRST_PUSHES <= capacity && State(Closed) == Fresh(capacity)
      requires forall r | r in repeats :: |r.file| < 0x8000_0000
      modifies this
      ensures exists pc :: Reached(Fresh(capacity), acts, State(pc))
    {
      ghost var start := State(Closed);
      acts := [];
      var i := 0;
      while i < |repeats|
        invariant 0 <= i <= |repeats| && Reached(start, acts, State(Closed))
      {
        var r := repeats[i];
        if |r.file| == 0 {
          return;
        }
        var pc;
        pc, acts := PlayFile(r.file, rounds, timeUp, r.fifoReady, r.playStarts, acts, start);
        if pc != Ended(Normal) && pc != Ended(EsEnd) {
          return;
        }
        acts := CloseFile(pc, acts, start);
        i := i + 1;
      }
    }
  }
}
