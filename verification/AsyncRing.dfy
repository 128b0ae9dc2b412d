/** Asynchronous requests to the DSP: argument blocks in a ring of slots, slot addresses in a message queue. */
module AsyncRing {
  import opened CArith

  const DSP_FFT_REQUEST: UInt32 := 0x70a53d38
  const DSP_FFT_STREAM_INPUT: UInt32 := 0x66fb6c98
  const WORDS := 8

  datatype Request = FftRequest(desc: UInt32) | StreamInput(buf: UInt32, size: UInt32)

  // ---------------------------------------------------------------- specification

  /** Builds are numbered from zero; build b uses slot b modulo k. */
  datatype Ring = Ring(
    k: nat,
    built: seq<Request>,
    sent: seq<nat>,          // numbers of the messages whose arguments the DSP has not read yet
    held: bool,              // the first of them has left the queue: the DSP has its address
    delivered: seq<Request>  // arguments the DSP has read
  )

  function Empty(k: nat): Ring { Ring(k, [], [], false, []) }

  /** Receiving a message and reading the arguments behind it are two steps: a build may come in between. */
  datatype Op = Build(req: Request, sendOk: bool) | Receive | Read

  /** The last of `n` builds that used the slot of build `b`. */
  function Latest(b: nat, n: nat, k: nat): (r: nat)
    requires k > 0 && b < n
    ensures r == b + (n - 1 - b) / k * k && b <= r < n <= r + k
  {
    var q := (n - 1 - b) / k;
    assert q * k <= n - 1 - b < q * k + k;
    b + q * k
  }

  ghost predicate WellFormed(r: Ring) {
    && r.k > 0 && (r.held ==> r.sent != [])
    && (forall i | 0 <= i < |r.sent| :: r.sent[i] < |r.built|)
    && forall i, j | 0 <= i < j < |r.sent| :: r.sent[i] < r.sent[j]
  }

  /** A build may be followed by a failing send, which uses up the slot all the same. */
  function Next(r: Ring, op: Op): Ring
    requires WellFormed(r)
  {
    match op
    case Build(req, ok) => r.(built := r.built + [req], sent := if ok then r.sent + [|r.built|] else r.sent)
    case Receive => r.(held := r.sent != [])
    case Read =>
      if !r.held then r else
        var read := r.built[Latest(r.sent[0], |r.built|, r.k)];
        r.(sent := r.sent[1..], held := false, delivered := r.delivered + [read])
  }

  lemma NextWellFormed(r: Ring, op: Op)
    requires WellFormed(r)
    ensures WellFormed(Next(r, op))
  {
  }

  // ---------------------------------------------------------------- the program

  class RpcClient {
    const slots: array2<UInt32>
    var index: nat
    var queue: seq<nat>      // slot numbers on the message queue
    var msgdata: nat         // slot number the DSP received last
    var busy: bool           // the DSP has not read that slot yet
    ghost var ring: Ring

    ghost predicate Valid()
      reads this, slots
    {
      && WellFormed(ring) && slots.Length0 == ring.k && slots.Length1 == WORDS
      && index == |ring.built| % ring.k
      && busy == ring.held && AreSlots(Pending(), ring.sent, ring.k)
      && forall b | 0 <= b < |ring.built| <= b + ring.k :: Holds(b % ring.k, ring.built[b])
    }

    /** Slots of the messages not acted on yet, the received one first. */
    ghost function Pending(): seq<nat>
      reads this
    {
      (if busy then [msgdata] else []) + queue
    }

    /** Slot `j` holds the arguments of `req`. */
    ghost predicate Holds(j: int, req: Request)
      requires slots.Length1 == WORDS
      reads slots
    {
      0 <= j < slots.Length0 && Decode(slots[j, 0], slots[j, 1], slots[j, 2]) == req
    }

    constructor (k: nat)
      requires k > 0
      ensures Valid() && fresh(slots) && ring == Empty(k)
    {
      slots := new UInt32[k, WORDS]((i, j) => 0);
      index, queue, msgdata, busy, ring := 0, [], 0, false, Empty(k);
    }

    /** get_async_buffer */
    method GetAsyncBuffer() returns (slot: nat)
      requires slots.Length0 > 0 && index < slots.Length0
      modifies this`index
      ensures slot == old(index) && index == (old(index) + 1) % slots.Length0
    {
      slot := index;
      index := index + 1;
      index := index % slots.Length0;
    }

    /** dsp_send: the slot address goes on the queue unless the send fails. */
    method DspSend(slot: nat, sendOk: bool)
      modifies this`queue
      ensures queue == if sendOk then old(queue) + [slot] else old(queue)
    {
      if sendOk {
        queue := queue + [slot];
      }
    }

    /** Ghost bookkeeping and invariant after a build into slot `slot`. */
    ghost method Record(req: Request, sendOk: bool, slot: nat, was: Ring)
      requires WellFormed(was) && ring == was && slots.Length0 == was.k && slots.Length1 == WORDS
      requires slot == |was.built| % was.k && index == (slot + 1) % was.k
      requires busy == was.held && AreSlots(Pending(), Next(was, Build(req, sendOk)).sent, was.k)
      requires Holds(slot, req)
      requires forall b | 0 <= b < |was.built| <= b + was.k && b % was.k != slot :: Holds(b % was.k, was.built[b])
      modifies this`ring
      ensures Valid() && ring == Next(was, Build(req, sendOk))
    {
      ring := Next(was, Build(req, sendOk));
      var n, k := |was.built|, was.k;
      NextResidue(n, k);
      forall b | 0 <= b < n + 1 <= b + k ensures Holds(b % k, ring.built[b]) {
        if b < n { DifferentSlots(b, n, k); }
      }
    }

    method FftRequestCall(desc: UInt32, sendOk: bool)
      requires Valid()
      modifies this, slots
      ensures Valid() && ring == Next(old(ring), Build(FftRequest(desc), sendOk))
      ensures slots[old(index), 0] == 0x70a53d38 && slots[old(index), 1] == desc
    {
      var args := GetAsyncBuffer();
      slots[args, 0] := DSP_FFT_REQUEST;
      slots[args, 1] := desc;
      ghost var before := Pending();
      DspSend(args, sendOk);
      SlotAppended(before, Pending(), ring, sendOk);
      Record(FftRequest(desc), sendOk, args, ring);
    }

    method FftStreamInput(buf: UInt32, size: UInt32, sendOk: bool)
      requires Valid()
      modifies this, slots
      ensures Valid() && ring == Next(old(ring), Build(StreamInput(buf, size), sendOk))
      ensures slots[old(index), 0] == 0x66fb6c98 && slots[old(index), 1] == buf && slots[old(index), 2] == size
    {
      var args := GetAsyncBuffer();
      slots[args, 0] := DSP_FFT_STREAM_INPUT;
      slots[args, 1] := buf;
      slots[args, 2] := size;
      ghost var before := Pending();
      DspSend(args, sendOk);
      SlotAppended(before, Pending(), ring, sendOk);
      Record(StreamInput(buf, size), sendOk, args, ring);
    }

    /** The DSP receives the oldest message. */
    method DspReceive()
      requires Valid() && queue != [] && !busy
      modifies this`queue, this`msgdata, this`busy, this`ring
      ensures Valid() && ring == Next(old(ring), Receive)
    {
      ghost var before := Pending();
      msgdata, busy := queue[0], true;
      queue := queue[1..];
      assert Pending() == before;
      ring := Next(ring, Receive);
    }

    /** rpcmain reads the arguments behind the message received. */
    method DspRead() returns (req: Request)
      requires Valid() && busy
      modifies this`busy, this`ring
      ensures Valid() && ring == Next(old(ring), Read) && req == ring.delivered[|ring.delivered| - 1]
    {
      ghost var b, n, k := ring.sent[0], |ring.built|, ring.k;
      SameSlot(b, n, k);
      assert Pending()[0] == msgdata == b % k;
      assert Holds(Latest(b, n, k) % k, ring.built[Latest(b, n, k)]);
      req := Decode(slots[msgdata, 0], slots[msgdata, 1], slots[msgdata, 2]);
      ghost var before := Pending();
      busy := false;
      assert Pending() == before[1..];
      ring := Next(ring, Read);
    }
  }

  /** The slots of numbered builds. */
  ghost predicate AreSlots(slots: seq<nat>, builds: seq<nat>, k: nat)
    requires k > 0
  {
    |slots| == |builds| && forall i | 0 <= i < |slots| :: slots[i] == builds[i] % k
  }

  /** What a send does to the pending slots is what it does to the numbered builds. */
  lemma SlotAppended(before: seq<nat>, after: seq<nat>, r: Ring, sendOk: bool)
    requires WellFormed(r) && AreSlots(before, r.sent, r.k)
    requires after == if sendOk then before + [|r.built| % r.k] else before
    ensures AreSlots(after, if sendOk then r.sent + [|r.built|] else r.sent, r.k)
  {
  }

  /** What the DSP makes of an argument block: the words it looks at depend on the function hash. */
  function Decode(w0: UInt32, w1: UInt32, w2: UInt32): Request {
    if w0 == DSP_FFT_REQUEST then FftRequest(w1) else StreamInput(w1, w2)
  }

  lemma NextResidue(n: nat, k: nat)
    requires k > 0
    ensures (n + 1) % k == (n % k + 1) % k
  {
    var q, r := n / k, n % k;
    assert n == q * k + r;
    if r + 1 < k {
      DivUnique(n + 1, k, q);
      DivUnique(r + 1, k, 0);
    } else {
      DivUnique(n + 1, k, q + 1);
      DivUnique(r + 1, k, 1);
    }
  }

  /** Fewer than k apart, different slots. */
  lemma DifferentSlots(a: nat, b: nat, k: nat)
    requires k > 0 && a < b < a + k
    ensures a % k != b % k
  {
    var q := a / k;
    assert a == q * k + a % k;
    if b < q * k + k { DivUnique(b, k, q); } else { DivUnique(b, k, q + 1); }
  }

  lemma SameSlot(b: nat, n: nat, k: nat)
    requires k > 0 && b < n
    ensures Latest(b, n, k) % k == b % k
  {
    var q, m := b / k, (n - 1 - b) / k;
    assert b == q * k + b % k && Latest(b, n, k) == (q + m) * k + b % k;
    DivUnique(Latest(b, n, k), k, q + m);
  }

  // ---------------------------------------------------------------- main results

  /** A slot still holds a request exactly when at most k builds, its own included, were made since. */
  lemma OwnArgumentsIff(b: nat, n: nat, k: nat)
    requires k > 0 && b < n
    ensures Latest(b, n, k) == b <==> n <= b + k
  {
    var q := (n - 1 - b) / k;
    if n <= b + k {
      DivUnique(n - 1 - b, k, 0);
    } else {
      DivAtLeastOne(n - 1 - b, k);
      MulLe(1, q, k);
    }
  }

  lemma DivAtLeastOne(a: nat, k: nat)
    requires a >= k > 0
    ensures a / k >= 1
  {
    var q := a / k;
    assert a == q * k + a % k;
  }

  function Run(r: Ring, ops: seq<Op>): Ring
    requires WellFormed(r)
    decreases |ops|
  {
    if ops == [] then r else
      NextWellFormed(r, ops[0]);
      Run(Next(r, ops[0]), ops[1..])
  }

  /** The DSP reads, if it does, while at most k builds were made since that of its message. */
  ghost predicate InTime(r: Ring, op: Op)
    requires WellFormed(r)
  {
    op.Read? && r.held ==> |r.built| <= r.sent[0] + r.k
  }

  /** Every read of a run is in time. */
  ghost predicate ReadInTime(r: Ring, ops: seq<Op>)
    requires WellFormed(r)
    decreases |ops|
  {
    ops == [] || (NextWellFormed(r, ops[0]); InTime(r, ops[0]) && ReadInTime(Next(r, ops[0]), ops[1..]))
  }

  /** The requests whose send succeeded, in call order. */
  function Sent(ops: seq<Op>): seq<Request> {
    if ops == [] then [] else SentBy(ops[0]) + Sent(ops[1..])
  }

  function SentBy(op: Op): seq<Request> { if op.Build? && op.sendOk then [op.req] else [] }

  function Waiting(r: Ring): (s: seq<Request>)
    requires WellFormed(r)
    ensures |s| == |r.sent|
  {
    seq(|r.sent|, i requires 0 <= i < |r.sent| => r.built[r.sent[i]])
  }

  lemma OneOp(r: Ring, op: Op)
    requires WellFormed(r) && InTime(r, op)
    ensures WellFormed(Next(r, op))
    ensures Arrived(Next(r, op)) == Arrived(r) + SentBy(op)
  {
    NextWellFormed(r, op);
    match op
    case Build(req, ok) => BuildArrives(r, req, ok);
    case Receive => assert Waiting(Next(r, op)) == Waiting(r);
    case Read => ReadArrives(r);
  }

  lemma BuildArrives(r: Ring, req: Request, ok: bool)
    requires WellFormed(r) && WellFormed(Next(r, Build(req, ok)))
    ensures Arrived(Next(r, Build(req, ok))) == Arrived(r) + SentBy(Build(req, ok))
  {
    assert Waiting(Next(r, Build(req, ok))) == Waiting(r) + SentBy(Build(req, ok));
  }

  lemma ReadArrives(r: Ring)
    requires WellFormed(r) && WellFormed(Next(r, Read)) && InTime(r, Read)
    ensures Arrived(Next(r, Read)) == Arrived(r)
  {
    if r.held {
      OwnArgumentsIff(r.sent[0], |r.built|, r.k);
      assert Waiting(r) == [Waiting(r)[0]] + Waiting(Next(r, Read));
      Regroup(r.delivered, [Waiting(r)[0]], Waiting(Next(r, Read)));
    }
  }

  /** Requests that reached the DSP, then those still waiting. */
  function Arrived(r: Ring): seq<Request>
    requires WellFormed(r)
  {
    r.delivered + Waiting(r)
  }

  lemma Regroup(a: seq<Request>, b: seq<Request>, c: seq<Request>)
    ensures (a + b) + c == a + (b + c)
  {
  }

  /**
   * Over every run in which arguments are read in time, the DSP receives exactly the requests sent, each with its
   * own arguments, in call order.
   */
  lemma {:induction false} DeliveredInOrder(r: Ring, ops: seq<Op>)
    requires WellFormed(r) && ReadInTime(r, ops)
    ensures WellFormed(Run(r, ops))
    ensures Arrived(Run(r, ops)) == Arrived(r) + Sent(ops)
    decreases |ops|
  {
    if ops != [] {
      OneOp(r, ops[0]);
      DeliveredInOrder(Next(r, ops[0]), ops[1..]);
      Regroup(Arrived(r), SentBy(ops[0]), Sent(ops[1..]));
    }
  }

  /** The requests built, whether sent or not. */
  function Built(ops: seq<Op>): seq<Request> {
    if ops == [] then [] else BuiltBy(ops[0]) + Built(ops[1..])
  }

  function BuiltBy(op: Op): seq<Request> { if op.Build? then [op.req] else [] }

  ghost predicate Distinct(s: seq<Request>) { forall i, j | 0 <= i < j < |s| :: s[i] != s[j] }

  /** What the DSP has read stays read. */
  lemma {:induction false} DeliveredGrows(r: Ring, ops: seq<Op>)
    requires WellFormed(r)
    ensures r.delivered <= Run(r, ops).delivered
    decreases |ops|
  {
    if ops != [] {
      NextWellFormed(r, ops[0]);
      DeliveredGrows(Next(r, ops[0]), ops[1..]);
    }
  }

  lemma {:induction false} RunWellFormed(r: Ring, ops: seq<Op>)
    requires WellFormed(r)
    ensures WellFormed(Run(r, ops))
    decreases |ops|
  {
    if ops != [] {
      NextWellFormed(r, ops[0]);
      RunWellFormed(Next(r, ops[0]), ops[1..]);
    }
  }

  /** A late read gives the DSP another request than the one it was sent. */
  lemma LateReadWrong(r: Ring, op: Op)
    requires WellFormed(r) && Distinct(r.built) && !InTime(r, op)
    ensures |Arrived(r)| > |r.delivered| && |Next(r, op).delivered| == |r.delivered| + 1
    ensures Next(r, op).delivered[|r.delivered|] != Arrived(r)[|r.delivered|]
  {
    var b, latest := r.sent[0], Latest(r.sent[0], |r.built|, r.k);
    OwnArgumentsIff(b, |r.built|, r.k);
    assert Arrived(r)[|r.delivered|] == Waiting(r)[0] == r.built[b];
    assert b < latest && Next(r, op).delivered[|r.delivered|] == r.built[latest];
  }

  /** Nothing later in a run makes up for it. */
  lemma LateReadStays(r: Ring, op: Op, ops: seq<Op>, more: seq<Request>)
    requires WellFormed(r) && WellFormed(Next(r, op)) && WellFormed(Run(Next(r, op), ops))
    requires Distinct(r.built) && !InTime(r, op)
    ensures Arrived(Run(Next(r, op), ops)) != Arrived(r) + more
  {
    var d, s := |r.delivered|, Next(r, op);
    LateReadWrong(r, op);
    DeliveredGrows(s, ops);
    assert Arrived(Run(s, ops))[d] == s.delivered[d] && (Arrived(r) + more)[d] == Arrived(r)[d];
  }

  /** If no request is built twice, one late read is enough to spoil what the DSP receives. */
  lemma {:induction false} LateReadSpoils(r: Ring, ops: seq<Op>)
    requires WellFormed(r) && Distinct(r.built + Built(ops)) && WellFormed(Run(r, ops)) && !ReadInTime(r, ops)
    ensures Arrived(Run(r, ops)) != Arrived(r) + Sent(ops)
    decreases |ops|
  {
    NextWellFormed(r, ops[0]);
    if InTime(r, ops[0]) {
      NextBuilt(r, ops);
      OneOp(r, ops[0]);
      LateReadSpoils(Next(r, ops[0]), ops[1..]);
      Regroup(Arrived(r), SentBy(ops[0]), Sent(ops[1..]));
    } else {
      BuiltSoFar(r, ops);
      LateReadStays(r, ops[0], ops[1..], Sent(ops));
    }
  }

  lemma NextBuilt(r: Ring, ops: seq<Op>)
    requires WellFormed(r) && ops != []
    ensures Next(r, ops[0]).built + Built(ops[1..]) == r.built + Built(ops)
  {
    OpBuilds(r, ops[0]);
    Regroup(r.built, BuiltBy(ops[0]), Built(ops[1..]));
  }

  lemma OpBuilds(r: Ring, op: Op)
    requires WellFormed(r)
    ensures Next(r, op).built == r.built + BuiltBy(op)
  {
    assert r.built + [] == r.built;
  }

  lemma BuiltSoFar(r: Ring, ops: seq<Op>)
    requires Distinct(r.built + Built(ops))
    ensures Distinct(r.built)
  {
    forall i, j | 0 <= i < j < |r.built| ensures r.built[i] != r.built[j] {
      assert (r.built + Built(ops))[i] == r.built[i] && (r.built + Built(ops))[j] == r.built[j];
    }
  }

  /**
   * Over every run from the start, whatever sends fail: if no two requests built are the same, the DSP receives
   * exactly the requests sent, in call order, if and only if every read comes while at most k builds were made since
   * that of its message.
   */
  lemma DeliveredInOrderIff(k: nat, ops: seq<Op>)
    requires k > 0 && Distinct(Built(ops))
    ensures WellFormed(Run(Empty(k), ops))
    ensures Arrived(Run(Empty(k), ops)) == Sent(ops) <==> ReadInTime(Empty(k), ops)
  {
    RunWellFormed(Empty(k), ops);
    assert Arrived(Empty(k)) == [];
    assert [] + Sent(ops) == Sent(ops) && [] + Built(ops) == Built(ops);
    if ReadInTime(Empty(k), ops) {
      DeliveredInOrder(Empty(k), ops);
    } else {
      LateReadSpoils(Empty(k), ops);
    }
  }

  /** No send fails, and whenever a request is built fewer than k are unconsumed. */
  ghost predicate Disciplined(r: Ring, ops: seq<Op>)
    requires WellFormed(r)
    decreases |ops|
  {
    ops == [] ||
    (NextWellFormed(r, ops[0]);
     (ops[0].Build? ==> ops[0].sendOk && |r.sent| < r.k) && Disciplined(Next(r, ops[0]), ops[1..]))
  }

  /** The messages waiting are the last builds, without gaps. */
  ghost predicate Gapless(r: Ring) {
    |r.sent| <= r.k && forall i | 0 <= i < |r.sent| :: r.sent[i] == |r.built| - |r.sent| + i
  }

  /** Keeping fewer than k requests open is enough for every read to be in time, and leaves no gaps. */
  lemma {:induction false} DisciplineSuffices(r: Ring, ops: seq<Op>)
    requires WellFormed(r) && Gapless(r) && Disciplined(r, ops)
    ensures ReadInTime(r, ops) && WellFormed(Run(r, ops)) && Gapless(Run(r, ops))
    decreases |ops|
  {
    if ops != [] {
      NextWellFormed(r, ops[0]);
      DisciplineSuffices(Next(r, ops[0]), ops[1..]);
    }
  }

  /** The slots of the messages not acted on yet are pairwise different. */
  ghost predicate DistinctSlots(r: Ring)
    requires r.k > 0
  {
    forall i, j | 0 <= i < j < |r.sent| :: r.sent[i] % r.k != r.sent[j] % r.k
  }

  lemma GaplessDistinct(r: Ring)
    requires WellFormed(r) && Gapless(r)
    ensures DistinctSlots(r)
  {
    forall i, j | 0 <= i < j < |r.sent| ensures r.sent[i] % r.k != r.sent[j] % r.k {
      DifferentSlots(r.sent[i], r.sent[j], r.k);
    }
  }

  /**
   * Safety for any ring size, over every run from the start: if no send fails and fewer than k requests are open
   * whenever one is built, outstanding requests own different slots, and the DSP receives every request with its
   * own arguments, in call order.
   */
  lemma DisciplinedRunIsSafe(k: nat, ops: seq<Op>)
    requires k > 0 && Disciplined(Empty(k), ops)
    ensures var r := Run(Empty(k), ops);
            WellFormed(r) && DistinctSlots(r) && Arrived(r) == Sent(ops)
  {
    DisciplineSuffices(Empty(k), ops);
    GaplessDistinct(Run(Empty(k), ops));
    DeliveredInOrder(Empty(k), ops);
    assert Arrived(Empty(k)) == [];
    assert [] + Sent(ops) == Sent(ops);
  }

  function FailedBuilds(reqs: seq<Request>): seq<Op> {
    if reqs == [] then [] else [Build(reqs[0], false)] + FailedBuilds(reqs[1..])
  }

  lemma {:induction false} FailedBuildsRun(r: Ring, reqs: seq<Request>)
    requires WellFormed(r)
    ensures Run(r, FailedBuilds(reqs)) == r.(built := r.built + reqs)
    decreases |reqs|
  {
    if reqs == [] {
      assert r.built + [] == r.built;
    } else {
      var ops := FailedBuilds(reqs);
      NextWellFormed(r, ops[0]);
      assert ops[1..] == FailedBuilds(reqs[1..]) && r.built + [reqs[0]] + reqs[1..] == r.built + reqs;
      FailedBuildsRun(Next(r, ops[0]), reqs[1..]);
    }
  }

  /**
   * Why failed sends count: for every ring size k, one message left waiting while k sends fail is delivered with
   * the arguments of the last failed request, although it is the only one outstanding.
   */
  lemma FailedSendsOverwrite(k: nat, first: Request, failed: seq<Request>)
    requires k > 0 && |failed| == k
    ensures var start := Next(Empty(k), Build(first, true));
            var r := Run(start, FailedBuilds(failed));
            WellFormed(r) && r.sent == [0]
            && WellFormed(Next(r, Receive)) && Next(Next(r, Receive), Read).delivered == [failed[k - 1]]
  {
    var start := Next(Empty(k), Build(first, true));
    FailedBuildsRun(start, failed);
    assert start.built == [first];
    DivUnique(k, k, 1);
    assert Latest(0, k + 1, k) == k;
  }
}
