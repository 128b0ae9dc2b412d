/** The recorder: a producer fills the FIFO, the application drains it into a file with a size header. */
module Recorder {
  import opened CArith

  const READ_SIZE := 6144 // READ_SIMPLE_FIFO_SIZE: 3072 * 2 channels

  /** The container format: a header of fixed length for any data size; without a container it is empty. */
  datatype Container = Container(length: nat, header: UInt32 -> seq<Byte>) {
    ghost predicate Valid() { forall n: UInt32 :: |header(n)| == length }
  }

  class Recording {
    const capacity: nat
    const container: Container
    const wav: bool

    var queue: seq<Byte>          // in the FIFO
    var file: seq<Byte>           // the output file
    var size: UInt32              // s_recorder_info.file.size
    ghost var captured: seq<Byte> // everything the producer delivered
    ghost var polled: seq<Byte>   // everything taken out of the FIFO
    ghost var lost: nat           // bytes that short writes dropped

    /** The bytes of the file behind the header. */
    ghost function Body(): seq<Byte>
      requires HeaderLength() <= |file|
      reads this
    {
      file[HeaderLength()..]
    }

    ghost function HeaderLength(): nat { if wav then container.length else 0 }

    ghost predicate Valid()
      reads this
    {
      && container.Valid() && |queue| <= capacity
      && polled + queue == captured
      && HeaderLength() <= |file| && |Body()| + lost == |polled|
      && (lost == 0 ==> Body() == polled)
      && size == ToUInt32(|polled|)
    }

    /** app_start_recorder: size cleared, header written with size zero, FIFO cleared. */
    constructor (capacity: nat, container: Container, wav: bool)
      requires container.Valid()
      ensures Valid() && this.capacity == capacity && this.container == container && this.wav == wav
      ensures captured == [] && lost == 0 && file == if wav then container.header(0) else []
    {
      this.capacity, this.container, this.wav := capacity, container, wav;
      queue, size, captured, polled, lost := [], 0, [], [], 0;
      file := if wav then container.header(0) else [];
    }

    /** The producer appends what fits, any number of times. */
    method Producer()
      requires Valid()
      modifies this`queue, this`captured
      ensures Valid() && old(queue) <= queue && old(captured) <= captured
    {
      var data: seq<Byte> := *;
      if |queue| + |data| <= capacity {
        assert polled + (queue + data) == (polled + queue) + data;
        queue, captured := queue + data, captured + data;
      }
    }

    /** fwrite at the end of the file, possibly short. */
    method FWrite(data: seq<Byte>)
      modifies this`file, this`lost
      ensures exists n: nat :: n <= |data| && file == old(file) + data[..n] && lost == old(lost) + |data| - n
    {
      var n: nat :| n <= |data|;
      file := file + data[..n];
      lost := lost + |data| - n;
    }

    /** app_write_output_file: nothing happens unless the whole request is there. */
    method WriteOutputFile(n: nat)
      requires Valid() && n <= 6144 // the size of write_buf
      modifies this`queue, this`file, this`size, this`polled, this`lost
      ensures Valid() && lost >= old(lost) && old(file) <= file
      ensures if 0 < n <= |old(queue)| then polled == old(polled) + old(queue)[..n] && queue == old(queue)[n..]
              else polled == old(polled) && queue == old(queue)
                   && file == old(file) && size == old(size) && lost == old(lost)
    {
      if n == 0 || |queue| == 0 {
        return;
      }
      if n > |queue| { // CMN_SimpleFifoPoll returns 0
        return;
      }
      var writeBuf := queue[..n];
      ghost var body := Body();
      assert polled + queue[..n] + queue[n..] == polled + queue by { assert queue[..n] + queue[n..] == queue; }
      queue := queue[n..];
      polled := polled + writeBuf;
      ghost var was := file;
      FWrite(writeBuf);
      assert file[HeaderLength()..] == was[HeaderLength()..] + file[|was|..];
      if lost == 0 { assert file[|was|..] == writeBuf; }
      StoreSum(|polled| - n, n);
      size := ToUInt32(size + n);
    }

    /**
     * app_pop_simple_fifo: one snapshot of the occupancy, then polls of at most one read size, the producer
     * running in between.
     */
    method PopSimpleFifo()
      requires Valid()
      modifies this`queue, this`file, this`size, this`polled, this`lost, this`captured
      ensures Valid() && lost >= old(lost) && old(captured) <= captured
      ensures polled == old(polled) + old(queue)
    {
      var occupied: nat := |queue|;
      ghost var todo := queue;
      while occupied > 0
        invariant Valid() && lost >= old(lost) && old(captured) <= captured
        invariant |todo| == occupied && todo <= queue
        invariant polled + todo == old(polled) + old(queue)
        decreases occupied
      {
        Producer();
        var n := if occupied > READ_SIZE then READ_SIZE else occupied;
        TakePrefix(polled, todo, queue, n);
        WriteOutputFile(n);
        todo := todo[n..];
        occupied := occupied - n;
      }
      Producer();
      assert polled + [] == polled;
    }

    /**
     * app_stop_recorder: if the stop command is refused nothing is done; otherwise the producer has stopped, the FIFO
     * is drained until empty, and the header is rewritten, `written` bytes of it.
     */
    method StopRecorder(accepted: bool, written: nat) returns (ok: bool)
      requires Valid() && written <= HeaderLength()
      modifies this`queue, this`file, this`size, this`polled, this`lost
      ensures ok == accepted && Valid() && lost >= old(lost)
      ensures !accepted ==> queue == old(queue) && file == old(file) && size == old(size) && lost == old(lost)
      ensures accepted ==> queue == [] && polled == captured
      ensures accepted && wav ==>
                file[..HeaderLength()] == container.header(size)[..written] + old(file)[written..HeaderLength()]
    {
      if !accepted {
        return false;
      }
      var occupied: nat := |queue|;
      while occupied > 0
        invariant Valid() && lost >= old(lost) && old(file) <= file && occupied == |queue|
        decreases occupied
      {
        var n := if occupied > READ_SIZE then READ_SIZE else occupied;
        WriteOutputFile(n);
        occupied := |queue|;
      }
      assert polled + [] == polled;
      if wav {
        UpdateWavFileSize(written);
      }
      ok := true;
    }

    /** app_update_wav_file_size: the first `written` bytes of the header for the current size. */
    method UpdateWavFileSize(written: nat)
      requires Valid() && wav && written <= HeaderLength()
      modifies this`file
      ensures Valid() && Body() == old(Body())
      ensures file[..HeaderLength()] == container.header(size)[..written] + old(file)[written..HeaderLength()]
    {
      ghost var body := Body();
      var header := container.header(size);
      file := header[..written] + file[written..];
      assert file[|header|..] == body;
    }
  }

  /** Taking `n` bytes off a queue that starts with `todo`. */
  lemma TakePrefix(done: seq<Byte>, todo: seq<Byte>, queue: seq<Byte>, n: nat)
    requires todo <= queue && n <= |todo|
    ensures (done + queue[..n]) + todo[n..] == done + todo && todo[n..] <= queue[n..]
  {
    assert queue[..n] == todo[..n] && todo[..n] + todo[n..] == todo;
    assert queue[n..][..|todo| - n] == todo[n..];
  }

  /**
   * A whole recording: some rounds of draining while the producer runs, then the stop. The size in the final
   * header is that of the bytes behind it exactly if these are fewer than 2^32 and short writes lost a multiple of
   * 2^32 bytes, none in particular. A refused stop leaves the rest in the FIFO.
   */
  method Record(capacity: nat, container: Container, wav: bool, rounds: nat, accepted: bool, written: nat)
    returns (r: Recording)
    requires container.Valid() && written <= if wav then container.length else 0
    ensures r.container == container && r.wav == wav && r.HeaderLength() <= |r.file|
    ensures |r.Body()| + r.lost + |r.queue| == |r.captured| && (accepted ==> r.queue == [])
    ensures r.lost == 0 ==> r.Body() + r.queue == r.captured
    ensures accepted && wav && written == container.length ==> r.file == container.header(r.size) + r.Body()
    ensures r.size == |r.Body()| <==> |r.Body()| < 0x1_0000_0000 && r.lost % 0x1_0000_0000 == 0
  {
    r := new Recording(capacity, container, wav);
    for i := 0 to rounds
      invariant fresh(r) && r.Valid() && r.container == container && r.wav == wav
    {
      r.Producer();
      r.PopSimpleFifo();
    }
    var ok := r.StopRecorder(accepted, written);
    assert r.file == r.file[..r.HeaderLength()] + r.Body();
    StoredSizeIff(|r.Body()|, r.lost);
  }

  lemma StoredSizeIff(body: nat, lost: nat)
    ensures ToUInt32(body + lost) == body <==> body < 0x1_0000_0000 && lost % 0x1_0000_0000 == 0
  {
    var m := 0x1_0000_0000;
    if body < m {
      var q := lost / m;
      assert lost == q * m + lost % m;
      if body + lost % m < m { DivUnique(body + lost, m, q); } else { DivUnique(body + lost, m, q + 1); }
    }
  }
}
