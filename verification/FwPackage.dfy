/** A firmware package: records of type, size and data, handed to the updater in chunks. */
module FwPackage {
  import opened CArith

  const ENOENT := 2
  const ENOMEM := 12
  const ENODATA := 61

  // ---------------------------------------------------------------- the updater and its environment

  datatype Download = Download(fwtype: UInt32, fwsize: UInt32, data: seq<Byte>)

  /** The work size, the code the k-th download returns, and whether the k-th buffer can be allocated. */
  datatype Env = Env(work: nat, reply: nat -> int, memory: nat -> bool)

  /** Little-endian numbers. */
  function Word(s: seq<Byte>): nat {
    if s == [] then 0 else s[0] as int + 0x100 * Word(s[1..])
  }

  function Bytes(w: nat, n: nat): (s: seq<Byte>)
    ensures |s| == n
  {
    if n == 0 then [] else [w % 0x100] + Bytes(w / 0x100, n - 1)
  }

  function Power(n: nat): nat { if n == 0 then 1 else 0x100 * Power(n - 1) }

  lemma {:induction false} WordOfBytes(w: nat, n: nat)
    requires w < Power(n)
    ensures Word(Bytes(w, n)) == w
  {
    if n > 0 {
      WordOfBytes(w / 0x100, n - 1);
    }
  }

  lemma {:induction false} WordBound(s: seq<Byte>)
    ensures Word(s) < Power(|s|)
  {
    if s != [] { WordBound(s[1..]); }
  }

  /** A four-byte header field. */
  function Field(s: seq<Byte>): UInt32
    requires |s| == 4
  {
    WordBound(s);
    assert Power(4) == 0x1_0000_0000;
    Word(s)
  }

  // ---------------------------------------------------------------- one image

  /** Outcome of downloading: the calls made and the code returned. */
  datatype Outcome = Outcome(calls: seq<Download>, code: int)

  function Extend(made: seq<Download>, o: Outcome): Outcome { Outcome(made + o.calls, o.code) }

  lemma ExtendTwice(a: seq<Download>, b: seq<Download>, o: Outcome)
    ensures Extend(a, Extend(b, o)) == Extend(a + b, o)
  {
    assert a + (b + o.calls) == (a + b) + o.calls;
  }

  /** do_partial_download with `remain` bytes to go, `s` left to read and `k` earlier downloads. */
  function Partial(s: seq<Byte>, fwtype: UInt32, fwsize: UInt32, remain: nat, k: nat, env: Env): Outcome
    requires env.work > 0
    decreases remain
  {
    var size := Min(remain, env.work);
    if !env.memory(k) then Outcome([], -ENOMEM)
    else if |s| < size then Outcome([], -ENODATA)
    else
      var d := Download(fwtype, fwsize, s[..size]);
      Extend([d], if remain == size then Outcome([], env.reply(k))
                  else Partial(s[size..], fwtype, fwsize, remain - size, k + 1, env))
  }

  // ---------------------------------------------------------------- the stream as records

  /** A record: its header fields and as much of its data as the stream holds. */
  datatype Item = Item(fwtype: UInt32, fwsize: UInt32, data: seq<Byte>)

  /** The records of a stream, and the number of bytes behind the last whole header. */
  function Parse(s: seq<Byte>): (seq<Item>, nat)
    decreases |s|
  {
    if |s| < 8 then ([], |s|) else
      var n := Min(Field(s[4..8]), |s| - 8);
      var (items, trail) := Parse(s[8 + n..]);
      ([Item(Field(s[..4]), Field(s[4..8]), s[8..8 + n])] + items, trail)
  }

  function LoadItem(item: Item, k: nat, env: Env): Outcome
    requires env.work > 0
  {
    if item.fwsize == 0 then Outcome([], -ENOENT)
    else Partial(item.data, item.fwtype, item.fwsize, item.fwsize, k, env)
  }

  /**
   * Record after record, as long as the returned code is zero; at the end of the stream the code is the short
   * header count.
   */
  function LoadAll(items: seq<Item>, trail: nat, k: nat, env: Env): Outcome
    requires env.work > 0
  {
    if items == [] then Outcome([], trail) else
      var o := LoadItem(items[0], k, env);
      if o.code != 0 then o else Extend(o.calls, LoadAll(items[1..], trail, k + |o.calls|, env))
  }

  /** The whole stream after `k` earlier downloads. */
  function Package(s: seq<Byte>, k: nat, env: Env): Outcome
    requires env.work > 0
  {
    LoadAll(Parse(s).0, Parse(s).1, k, env)
  }

  // ---------------------------------------------------------------- the program

  class Stream {
    var rest: seq<Byte>

    constructor (bytes: seq<Byte>)
      ensures rest == bytes
    {
      rest := bytes;
    }

    method Read(n: nat) returns (bytes: seq<Byte>)
      modifies this
      ensures bytes == old(rest)[..Min(n, |old(rest)|)] && rest == old(rest)[Min(n, |old(rest)|)..]
    {
      bytes := rest[..Min(n, |rest|)];
      rest := rest[|bytes|..];
    }
  }

  class Client {
    const env: Env
    var calls: seq<Download>
    var updates: seq<nat> // for each update() call, the number of downloads before it

    constructor (env: Env)
      ensures this.env == env && calls == [] && updates == []
    {
      this.env, calls, updates := env, [], [];
    }

    method Load(d: Download) returns (ret: int)
      modifies this`calls
      ensures calls == old(calls) + [d] && ret == env.reply(|old(calls)|)
    {
      ret := env.reply(|calls|);
      calls := calls + [d];
    }

    method Update()
      modifies this`updates
      ensures updates == old(updates) + [|calls|]
    {
      updates := updates + [|calls|];
    }

    /** Loop body of do_partial_download: allocate, read and load one chunk. */
    method LoadChunk(fp: Stream, fwtype: UInt32, fwsize: UInt32, remain: nat)
      returns (ret: int, left: nat, more: bool, ghost made: seq<Download>)
      requires env.work > 0
      modifies this`calls, fp
      ensures left <= remain && (more ==> left < remain)
      ensures Partial(old(fp.rest), fwtype, fwsize, remain, |old(calls)|, env) ==
                Extend(made, if more then Partial(fp.rest, fwtype, fwsize, left, |calls|, env) else Outcome([], ret))
      ensures calls == old(calls) + made
      ensures more || ret == 0 ==>
                |old(fp.rest)| >= remain - left && fp.rest == old(fp.rest)[remain - left..] && (more || left == 0)
    {
      var size := Min(remain, env.work);
      made, left, more := [], remain, false;
      if !env.memory(|calls|) {
        return -ENOMEM, left, more, made;
      }
      var buf := fp.Read(size);
      if |buf| != size {
        return -ENODATA, left, more, made;
      }
      var d := Download(fwtype, fwsize, buf);
      ret := Load(d);
      made := [d];
      left := remain - size;
      more := 0 < left;
    }

    method DoPartialDownload(fp: Stream, fwtype: UInt32, fwsize: UInt32) returns (ret: int)
      requires env.work > 0
      modifies this`calls, fp
      ensures var o := Partial(old(fp.rest), fwtype, fwsize, fwsize, |old(calls)|, env);
              calls == old(calls) + o.calls && ret == o.code
      ensures ret == 0 ==> |old(fp.rest)| >= fwsize && fp.rest == old(fp.rest)[fwsize..]
    {
      var remain: nat := fwsize;
      ghost var s := fp.rest;
      ghost var all := Partial(s, fwtype, fwsize, remain, |calls|, env);
      ghost var made: seq<Download> := [];
      ghost var todo, now, r0 := all, [], remain;
      var more := true;
      ret := 0;
      while more
        invariant calls == old(calls) + made && all == Extend(made, todo)
        invariant todo == if more then Partial(fp.rest, fwtype, fwsize, remain, |calls|, env) else Outcome([], ret)
        invariant more || ret == 0 ==>
                    0 <= fwsize - remain <= |s| && fp.rest == s[fwsize - remain..] && (more || remain == 0)
        decreases more, remain
      {
        r0 := remain;
        ret, remain, more, now := LoadChunk(fp, fwtype, fwsize, remain);
        todo := if more then Partial(fp.rest, fwtype, fwsize, remain, |calls|, env) else Outcome([], ret);
        ExtendTwice(made, now, todo);
        made := made + now;
        if more || ret == 0 { assert s[fwsize - r0..][r0 - remain..] == s[fwsize - remain..]; }
      }
    }

    /** Loop body of do_package_download: one record. */
    method LoadRecord(fp: Stream) returns (ret: int, more: bool, ghost made: seq<Download>)
      requires env.work > 0
      modifies this`calls, fp
      ensures calls == old(calls) + made
      ensures more ==> |fp.rest| < |old(fp.rest)|
      ensures Package(old(fp.rest), |old(calls)|, env) ==
                Extend(made, if more then Package(fp.rest, |calls|, env) else Outcome([], ret))
    {
      ghost var s := fp.rest;
      var header := fp.Read(8);
      ret, more, made := |header|, false, [];
      if |header| != 8 {
        return;
      }
      assert header[..4] == s[..4] && header[4..] == s[4..8];
      var fwtype, fwsize := Field(header[..4]), Field(header[4..]);
      RecordStep(s, |calls|, env);
      if fwsize == 0 {
        ret := -ENOENT;
        return;
      }
      made := Partial(s[8..], fwtype, fwsize, fwsize, |calls|, env).calls;
      ret := DoPartialDownload(fp, fwtype, fwsize);
      more := ret == 0;
    }

    /** do_package_download: records until the stream has no whole header left. */
    method DoPackageDownload(fp: Stream) returns (ret: int)
      requires env.work > 0
      modifies this`calls, fp
      ensures var o := Package(old(fp.rest), |old(calls)|, env); calls == old(calls) + o.calls && ret == o.code
    {
      ghost var all := Package(fp.rest, |calls|, env);
      ghost var made: seq<Download> := [];
      ghost var todo, now := all, [];
      var more := true;
      ret := 0;
      while more
        invariant calls == old(calls) + made && all == Extend(made, todo)
        invariant todo == if more then Package(fp.rest, |calls|, env) else Outcome([], ret)
        decreases more, |fp.rest|
      {
        ret, more, now := LoadRecord(fp);
        todo := if more then Package(fp.rest, |calls|, env) else Outcome([], ret);
        ExtendTwice(made, now, todo);
        made := made + now;
      }
    }

    /** fwupdate_package: download everything, then start the update unless a negative code came back. */
    method FwupdatePackage(fp: Stream, updateCode: int) returns (ret: int)
      requires env.work > 0 && calls == [] && updates == []
      modifies this, fp
      ensures var o := Package(old(fp.rest), 0, env);
              calls == o.calls
              && if o.code < 0 then ret == o.code && updates == [] else ret == updateCode && updates == [|calls|]
    {
      ret := DoPackageDownload(fp);
      if ret < 0 {
        return;
      }
      Update();
      ret := updateCode;
    }
  }

  /** A stream with a whole header: its first record, then the rest. */
  lemma RecordStep(s: seq<Byte>, k: nat, env: Env)
    requires env.work > 0 && |s| >= 8
    ensures var fwtype, fwsize := Field(s[..4]), Field(s[4..8]);
            var o := Partial(s[8..], fwtype, fwsize, fwsize, k, env);
            Package(s, k, env) ==
              if fwsize == 0 then Outcome([], -ENOENT)
              else Extend(o.calls, if o.code != 0 || |s| - 8 < fwsize then Outcome([], o.code)
                                   else Package(s[8..][fwsize..], k + |o.calls|, env))
  {
    var data, fwtype, fwsize := s[8..], Field(s[..4]), Field(s[4..8]);
    var n := Min(fwsize, |data|);
    var later := Parse(data[n..]);
    ParseStep(s);
    FromStream(data, fwtype, fwsize, k, env);
    var item := Item(fwtype, fwsize, data[..n]);
    FirstItem(item, later.0, later.1, k, env);
    assert Package(s, k, env) == LoadAll([item] + later.0, later.1, k, env);
    var o := LoadItem(item, k, env);
    if o.code == 0 {
      assert n == fwsize;
      assert LoadAll(later.0, later.1, k + |o.calls|, env) == Package(data[fwsize..], k + |o.calls|, env);
    }
  }

  lemma ParseStep(s: seq<Byte>)
    requires |s| >= 8
    ensures var n := Min(Field(s[4..8]), |s| - 8);
            var later := Parse(s[8..][n..]);
            Parse(s) == ([Item(Field(s[..4]), Field(s[4..8]), s[8..][..n])] + later.0, later.1)
  {
    var n := Min(Field(s[4..8]), |s| - 8);
    assert s[8..8 + n] == s[8..][..n] && s[8..][n..] == s[8 + n..];
  }

  /** Loading a parsed record is loading from the stream behind its header. */
  lemma FromStream(data: seq<Byte>, fwtype: UInt32, fwsize: UInt32, k: nat, env: Env)
    requires env.work > 0
    ensures var o := LoadItem(Item(fwtype, fwsize, data[..Min(fwsize, |data|)]), k, env);
            o == (if fwsize == 0 then Outcome([], -ENOENT) else Partial(data, fwtype, fwsize, fwsize, k, env))
            && (fwsize > |data| ==> o.code < 0)
  {
    OwnBytesOnly(data, fwtype, fwsize, fwsize, k, env);
    if fwsize > |data| { CutShort(data, fwtype, fwsize, fwsize, k, env); }
  }

  lemma FirstItem(item: Item, later: seq<Item>, trail: nat, k: nat, env: Env)
    requires env.work > 0
    ensures var o := LoadItem(item, k, env);
            LoadAll([item] + later, trail, k, env) ==
              Extend(o.calls, if o.code == 0 then LoadAll(later, trail, k + |o.calls|, env) else Outcome([], o.code))
  {
    var o := LoadItem(item, k, env);
    assert o.calls + [] == o.calls && ([item] + later)[1..] == later;
  }

  /** Downloading looks only at the record's own bytes. */
  lemma {:induction false} OwnBytesOnly(s: seq<Byte>, fwtype: UInt32, fwsize: UInt32, remain: nat, k: nat, env: Env)
    requires env.work > 0
    ensures Partial(s, fwtype, fwsize, remain, k, env) == Partial(s[..Min(remain, |s|)], fwtype, fwsize, remain, k, env)
    decreases remain
  {
    var size, own := Min(remain, env.work), s[..Min(remain, |s|)];
    if size < remain && |s| >= size {
      OwnBytesOnly(s[size..], fwtype, fwsize, remain - size, k + 1, env);
      assert own[size..] == s[size..][..Min(remain - size, |s| - size)];
    }
    assert |s| >= size ==> own[..size] == s[..size];
  }

  // ---------------------------------------------------------------- packages as lists of images

  datatype Image = Image(fwtype: UInt32, data: seq<Byte>)

  predicate Loadable(img: Image) { 0 < |img.data| < 0x1_0000_0000 }

  predicate AllLoadable(images: seq<Image>) { forall i | 0 <= i < |images| :: Loadable(images[i]) }

  function Record(img: Image): seq<Byte>
    requires Loadable(img)
  {
    Bytes(img.fwtype, 4) + Bytes(|img.data|, 4) + img.data
  }

  function Serialize(images: seq<Image>): seq<Byte>
    requires AllLoadable(images)
  {
    if images == [] then [] else Record(images[0]) + Serialize(images[1..])
  }

  function ItemOf(img: Image): Item
    requires Loadable(img)
  {
    Item(img.fwtype, |img.data|, img.data)
  }

  function ItemsOf(images: seq<Image>): (items: seq<Item>)
    requires AllLoadable(images)
  {
    if images == [] then [] else [ItemOf(images[0])] + ItemsOf(images[1..])
  }

  lemma ParseRecord(img: Image, later: seq<Byte>)
    requires Loadable(img)
    ensures Parse(Record(img) + later) == ([ItemOf(img)] + Parse(later).0, Parse(later).1)
  {
    var s, n := Record(img) + later, |img.data|;
    assert Power(4) == 0x1_0000_0000;
    WordOfBytes(img.fwtype, 4);
    WordOfBytes(n, 4);
    assert s[..4] == Bytes(img.fwtype, 4) && s[4..8] == Bytes(n, 4);
    assert s[8..8 + n] == img.data && s[8 + n..] == later;
  }

  /** Parsing undoes serializing, whatever follows. */
  lemma {:induction false} ParseSerialize(images: seq<Image>, tail: seq<Byte>)
    requires AllLoadable(images)
    ensures Parse(Serialize(images) + tail) == (ItemsOf(images) + Parse(tail).0, Parse(tail).1)
  {
    if images == [] {
      assert [] + tail == tail && [] + Parse(tail).0 == Parse(tail).0;
    } else {
      var later := Serialize(images[1..]) + tail;
      SerializeCons(images, tail);
      ParseRecord(images[0], later);
      ParseSerialize(images[1..], tail);
      ItemsCons(images, Parse(tail).0);
    }
  }

  lemma SerializeCons(images: seq<Image>, tail: seq<Byte>)
    requires AllLoadable(images) && images != []
    ensures Serialize(images) + tail == Record(images[0]) + (Serialize(images[1..]) + tail)
  {
  }

  lemma ItemsCons(images: seq<Image>, more: seq<Item>)
    requires AllLoadable(images) && images != []
    ensures ItemsOf(images) + more == [ItemOf(images[0])] + (ItemsOf(images[1..]) + more)
  {
  }

  // ---------------------------------------------------------------- chunks

  /** Number of chunks of at most `w` bytes. */
  function ChunkCount(n: nat, w: nat): (c: nat)
    requires w > 0
    ensures n > 0 ==> c > 0
  {
    if n == 0 then 0 else if n <= w then 1 else 1 + ChunkCount(n - w, w)
  }

  /** The number of chunks is the quotient rounded up. */
  lemma ChunkCountIsCeiling(n: nat, w: nat)
    requires w > 0
    ensures ChunkCount(n, w) == (n + w - 1) / w
  {
    CeilingBracket(n, w);
    DivUnique(n + w - 1, w, ChunkCount(n, w));
  }

  lemma {:induction false} CeilingBracket(n: nat, w: nat)
    requires w > 0
    ensures ChunkCount(n, w) * w <= n + w - 1 < ChunkCount(n, w) * w + w
  {
    if n > w { CeilingBracket(n - w, w); }
  }

  /** The data of all calls, in call order. */
  function Gather(calls: seq<Download>): seq<Byte> {
    if calls == [] then [] else calls[0].data + Gather(calls[1..])
  }

  /** The calls carry the type and full size, hold between one byte and the work size each, and together are `data`. */
  ghost predicate Carry(calls: seq<Download>, fwtype: UInt32, fwsize: UInt32, data: seq<Byte>, work: nat)
    requires work > 0
  {
    && |calls| == ChunkCount(|data|, work)
    && (forall i | 0 <= i < |calls| ::
          calls[i].fwtype == fwtype && calls[i].fwsize == fwsize && 1 <= |calls[i].data| <= work)
    && Gather(calls) == data
  }

  /** The buffers of `n` downloads after `k` earlier ones can be allocated. */
  ghost predicate Allocates(env: Env, k: nat, n: nat) { forall j | k <= j < k + n :: env.memory(j) }

  /** Chunking bytes that are all there, into buffers that can all be allocated. Only the last code is returned. */
  lemma {:induction false} ChunksCarry(s: seq<Byte>, fwtype: UInt32, fwsize: UInt32, k: nat, env: Env)
    requires env.work > 0 && s != [] && Allocates(env, k, ChunkCount(|s|, env.work))
    ensures var o := Partial(s, fwtype, fwsize, |s|, k, env);
            Carry(o.calls, fwtype, fwsize, s, env.work) && o.code == env.reply(k + |o.calls| - 1)
    decreases |s|
  {
    var w := env.work;
    if |s| <= w {
      LastChunk(s, fwtype, fwsize, k, env);
    } else {
      assert forall j | k + 1 <= j < k + 1 + ChunkCount(|s| - w, w) :: env.memory(j);
      ChunksCarry(s[w..], fwtype, fwsize, k + 1, env);
      FirstChunk(s, fwtype, fwsize, k, env);
      var later := Partial(s[w..], fwtype, fwsize, |s| - w, k + 1, env);
      CarryNext(Download(fwtype, fwsize, s[..w]), later.calls, fwtype, fwsize, s, w);
    }
  }

  lemma FirstChunk(s: seq<Byte>, fwtype: UInt32, fwsize: UInt32, k: nat, env: Env)
    requires |s| > env.work > 0 && env.memory(k)
    ensures Partial(s, fwtype, fwsize, |s|, k, env) ==
              Extend([Download(fwtype, fwsize, s[..env.work])],
                     Partial(s[env.work..], fwtype, fwsize, |s| - env.work, k + 1, env))
  {
  }

  lemma LastChunk(s: seq<Byte>, fwtype: UInt32, fwsize: UInt32, k: nat, env: Env)
    requires 0 < |s| <= env.work && env.memory(k)
    ensures var o := Partial(s, fwtype, fwsize, |s|, k, env);
            Carry(o.calls, fwtype, fwsize, s, env.work) && |o.calls| == 1 && o.code == env.reply(k)
  {
    var d := Download(fwtype, fwsize, s[..|s|]);
    assert s[..|s|] == s && s + [] == s && [d] + [] == [d];
    assert Gather([d]) == d.data + Gather([]);
  }

  lemma CarryNext(d: Download, calls: seq<Download>, fwtype: UInt32, fwsize: UInt32, s: seq<Byte>, w: nat)
    requires |s| > w > 0 && d == Download(fwtype, fwsize, s[..w]) && Carry(calls, fwtype, fwsize, s[w..], w)
    ensures Carry([d] + calls, fwtype, fwsize, s, w)
  {
    assert ([d] + calls)[1..] == calls && s[..w] + s[w..] == s;
  }

  /** When a buffer cannot be allocated, the loop ends with that error. */
  lemma {:induction false} OutOfMemory(s: seq<Byte>, fwtype: UInt32, fwsize: UInt32, k: nat, env: Env)
    requires env.work > 0 && s != [] && !Allocates(env, k, ChunkCount(|s|, env.work))
    ensures Partial(s, fwtype, fwsize, |s|, k, env).code == -ENOMEM
    decreases |s|
  {
    var w := env.work;
    if env.memory(k) {
      var j :| k <= j < k + ChunkCount(|s|, w) && !env.memory(j);
      assert |s| > w && k + 1 <= j < k + 1 + ChunkCount(|s| - w, w);
      OutOfMemory(s[w..], fwtype, fwsize, k + 1, env);
    }
  }

  // ---------------------------------------------------------------- runs over complete records

  /** Code of an image loaded after `k` downloads: that of its last chunk, unless a buffer cannot be allocated. */
  ghost function ImageCode(img: Image, k: nat, env: Env): int
    requires env.work > 0 && Loadable(img)
  {
    var n := ChunkCount(|img.data|, env.work);
    if Allocates(env, k, n) then env.reply(k + n - 1) else -ENOMEM
  }

  lemma LoadComplete(img: Image, k: nat, env: Env)
    requires env.work > 0 && Loadable(img)
    ensures var o := LoadItem(ItemOf(img), k, env);
            o.code == ImageCode(img, k, env)
            && (o.code != -ENOMEM ==> Carry(o.calls, img.fwtype, |img.data|, img.data, env.work))
  {
    if Allocates(env, k, ChunkCount(|img.data|, env.work)) {
      ChunksCarry(img.data, img.fwtype, |img.data|, k, env);
    } else {
      OutOfMemory(img.data, img.fwtype, |img.data|, k, env);
    }
  }

  /** The calls are the images' chunks, image after image. */
  ghost predicate CarryAll(calls: seq<Download>, images: seq<Image>, work: nat)
    requires work > 0 && AllLoadable(images)
  {
    if images == [] then calls == [] else
      var img, n := images[0], ChunkCount(|images[0].data|, work);
      && n <= |calls| && Carry(calls[..n], img.fwtype, |img.data|, img.data, work)
      && CarryAll(calls[n..], images[1..], work)
  }

  lemma CarryAllNext(calls: seq<Download>, rest: seq<Download>, images: seq<Image>, work: nat)
    requires work > 0 && AllLoadable(images) && images != [] && CarryAll(rest, images[1..], work)
    requires Carry(calls, images[0].fwtype, |images[0].data|, images[0].data, work)
    ensures CarryAll(calls + rest, images, work)
  {
    assert (calls + rest)[..|calls|] == calls && (calls + rest)[|calls|..] == rest;
  }

  lemma {:induction false} LoadAllCarry(images: seq<Image>, trail: nat, k: nat, env: Env)
    requires env.work > 0 && AllLoadable(images) && (forall j :: env.memory(j)) && forall j :: env.reply(j) == 0
    ensures var o := LoadAll(ItemsOf(images), trail, k, env);
            CarryAll(o.calls, images, env.work) && o.code == trail
  {
    if images != [] {
      var o := LoadItem(ItemOf(images[0]), k, env);
      LoadAccepted(images[0], k, env);
      LoadAllCarry(images[1..], trail, k + |o.calls|, env);
      var later := LoadAll(ItemsOf(images[1..]), trail, k + |o.calls|, env);
      FirstItem(ItemOf(images[0]), ItemsOf(images[1..]), trail, k, env);
      assert LoadAll(ItemsOf(images), trail, k, env) == Extend(o.calls, later);
      CarryAllNext(o.calls, later.calls, images, env.work);
    }
  }

  lemma LoadAccepted(img: Image, k: nat, env: Env)
    requires env.work > 0 && Loadable(img) && (forall j :: env.memory(j)) && forall j :: env.reply(j) == 0
    ensures var o := LoadItem(ItemOf(img), k, env);
            o.code == 0 && Carry(o.calls, img.fwtype, |img.data|, img.data, env.work)
  {
    LoadComplete(img, k, env);
  }

  /** The first nonzero code of an image, or `last` if there is none. */
  ghost function FirstFailure(images: seq<Image>, last: int, k: nat, env: Env): int
    requires env.work > 0 && AllLoadable(images)
  {
    if images == [] then last
    else if ImageCode(images[0], k, env) != 0 then ImageCode(images[0], k, env)
    else FirstFailure(images[1..], last, k + ChunkCount(|images[0].data|, env.work), env)
  }

  function CallCount(images: seq<Image>, work: nat): nat
    requires work > 0
  {
    if images == [] then 0 else ChunkCount(|images[0].data|, work) + CallCount(images[1..], work)
  }

  /** Which code ends a run that starts with complete records. */
  lemma {:induction false} EndingCode(images: seq<Image>, more: seq<Item>, trail: nat, k: nat, env: Env)
    requires env.work > 0 && AllLoadable(images)
    ensures LoadAll(ItemsOf(images) + more, trail, k, env).code ==
              FirstFailure(images, LoadAll(more, trail, k + CallCount(images, env.work), env).code, k, env)
  {
    if images == [] {
      assert [] + more == more;
    } else {
      var n := ChunkCount(|images[0].data|, env.work);
      assert ItemsOf(images) + more == [ItemOf(images[0])] + (ItemsOf(images[1..]) + more);
      assert k + CallCount(images, env.work) == k + n + CallCount(images[1..], env.work);
      FirstCode(images[0], ItemsOf(images[1..]) + more, trail, k, env);
      EndingCode(images[1..], more, trail, k + n, env);
    }
  }

  lemma FirstCode(img: Image, later: seq<Item>, trail: nat, k: nat, env: Env)
    requires env.work > 0 && Loadable(img)
    ensures LoadAll([ItemOf(img)] + later, trail, k, env).code ==
              if ImageCode(img, k, env) != 0 then ImageCode(img, k, env)
              else LoadAll(later, trail, k + ChunkCount(|img.data|, env.work), env).code
  {
    LoadCode(img, k, env);
    FirstItem(ItemOf(img), later, trail, k, env);
  }

  lemma LoadCode(img: Image, k: nat, env: Env)
    requires env.work > 0 && Loadable(img)
    ensures var o := LoadItem(ItemOf(img), k, env);
            o.code == ImageCode(img, k, env) && (o.code == 0 ==> |o.calls| == ChunkCount(|img.data|, env.work))
  {
    LoadComplete(img, k, env);
  }

  lemma {:induction false} FirstFailureEnd(images: seq<Image>, last: int, k: nat, env: Env)
    requires env.work > 0 && AllLoadable(images)
    ensures var first := FirstFailure(images, 0, k, env);
            FirstFailure(images, last, k, env) == if first == 0 then last else first
  {
    if images != [] { FirstFailureEnd(images[1..], last, k + ChunkCount(|images[0].data|, env.work), env); }
  }

  // ---------------------------------------------------------------- main results

  /**
   * Round trip: if all downloads return zero, the calls made for a serialized package are exactly its images in
   * order, even with a few bytes trailing, and the code leads to the update.
   */
  lemma PackageRoundTrip(images: seq<Image>, trail: seq<Byte>, env: Env)
    requires AllLoadable(images) && |trail| < 8
    requires env.work > 0 && (forall j :: env.memory(j)) && forall j :: env.reply(j) == 0
    ensures var o := Package(Serialize(images) + trail, 0, env);
            CarryAll(o.calls, images, env.work) && o.code == |trail|
  {
    ParseSerialize(images, trail);
    assert ItemsOf(images) + [] == ItemsOf(images);
    LoadAllCarry(images, |trail|, 0, env);
  }

  /** A record that cannot be completed: zero size, or fewer data bytes than its header announces. */
  predicate Broken(tail: seq<Byte>) {
    |tail| >= 8 && (Field(tail[4..8]) == 0 || |tail| - 8 < Field(tail[4..8]))
  }

  lemma {:induction false} CutShort(s: seq<Byte>, fwtype: UInt32, fwsize: UInt32, remain: nat, k: nat, env: Env)
    requires env.work > 0 && |s| < remain
    ensures Partial(s, fwtype, fwsize, remain, k, env).code < 0
    decreases remain
  {
    var size := Min(remain, env.work);
    if size < remain && |s| >= size { CutShort(s[size..], fwtype, fwsize, remain - size, k + 1, env); }
  }

  lemma BrokenIsNegative(tail: seq<Byte>, k: nat, env: Env)
    requires env.work > 0 && Broken(tail)
    ensures LoadAll(Parse(tail).0, Parse(tail).1, k, env).code < 0
  {
    var item := Parse(tail).0[0];
    if item.fwsize != 0 { CutShort(item.data, item.fwtype, item.fwsize, item.fwsize, k, env); }
  }

  /**
   * Complete records, then a broken one: the code is negative, so that update() is not called, exactly if no
   * earlier image ends with a positive code first.
   */
  lemma BrokenRecordIff(images: seq<Image>, tail: seq<Byte>, env: Env)
    requires env.work > 0 && AllLoadable(images) && Broken(tail)
    ensures Package(Serialize(images) + tail, 0, env).code < 0 <==> FirstFailure(images, 0, 0, env) <= 0
  {
    ParseSerialize(images, tail);
    EndingCode(images, Parse(tail).0, Parse(tail).1, 0, env);
    var n := CallCount(images, env.work);
    BrokenIsNegative(tail, n, env);
    FirstFailureEnd(images, LoadAll(Parse(tail).0, Parse(tail).1, n, env).code, 0, env);
  }

  /** The updater answering one to the only chunk of a first image: the zero-size record behind it goes unnoticed. */
  lemma BrokenRecordMissed()
    ensures var images, tail, env := [Image(0, [7])], seq(8, i => 0 as Byte), Env(1, j => 1, j => true);
            Broken(tail) && Package(Serialize(images) + tail, 0, env).code == 1
  {
    var images, tail, env := [Image(0, [7])], seq(8, i => 0 as Byte), Env(1, j => 1, j => true);
    ZeroWord(tail[4..8]);
    ParseSerialize(images, tail);
    EndingCode(images, Parse(tail).0, Parse(tail).1, 0, env);
    assert ImageCode(images[0], 0, env) == 1;
  }

  lemma {:induction false} ZeroWord(s: seq<Byte>)
    requires forall i | 0 <= i < |s| :: s[i] == 0
    ensures Word(s) == 0
  {
    if s != [] { ZeroWord(s[1..]); }
  }

  /**
   * Over complete records, the update is started exactly when the first nonzero image code, if any, is positive.
   * Codes of earlier chunks are ignored, and a positive code starts the update with later images missing.
   */
  lemma UpdateIff(images: seq<Image>, trail: seq<Byte>, env: Env)
    requires env.work > 0 && AllLoadable(images) && |trail| < 8
    ensures Package(Serialize(images) + trail, 0, env).code >= 0 <==> FirstFailure(images, 0, 0, env) >= 0
  {
    ParseSerialize(images, trail);
    EndingCode(images, [], |trail|, 0, env);
    FirstFailureEnd(images, |trail|, 0, env);
  }

  // ---------------------------------------------------------------- every file

  lemma {:induction false} BytesOfWord(s: seq<Byte>)
    ensures Bytes(Word(s), |s|) == s
  {
    if s != [] {
      var w := Word(s[1..]);
      assert Word(s) == s[0] as int + 0x100 * w;
      LowByte(s[0], w);
      BytesOfWord(s[1..]);
      assert s == [s[0]] + s[1..];
    }
  }

  lemma LowByte(b: Byte, w: nat)
    ensures (b as int + 0x100 * w) % 0x100 == b && (b as int + 0x100 * w) / 0x100 == w
  {
  }

  /** The image at the head of a stream that starts with a complete record. */
  function FirstImage(s: seq<Byte>): (img: Image)
    requires |s| >= 8 && !Broken(s)
    ensures Loadable(img)
  {
    Image(Field(s[..4]), s[8..8 + Field(s[4..8])])
  }

  /** The complete records a stream starts with, and what follows them. */
  function Split(s: seq<Byte>): (r: (seq<Image>, seq<Byte>))
    ensures AllLoadable(r.0)
    decreases |s|
  {
    if |s| < 8 || Broken(s) then ([], s) else
      var img := FirstImage(s);
      var (images, tail) := Split(s[8 + |img.data|..]);
      ([img] + images, tail)
  }

  lemma RecordOf(s: seq<Byte>)
    requires |s| >= 8 && !Broken(s)
    ensures var img := FirstImage(s);
            8 + |img.data| <= |s| && s == Record(img) + s[8 + |img.data|..]
  {
    BytesOfWord(s[..4]);
    BytesOfWord(s[4..8]);
    var img := FirstImage(s);
    assert Record(img) == s[..4] + s[4..8] + img.data;
    FourParts(s, 8 + |img.data|);
  }

  lemma FourParts(s: seq<Byte>, end: nat)
    requires 8 <= end <= |s|
    ensures s == s[..4] + s[4..8] + s[8..end] + s[end..]
  {
  }

  /** Every file is a serialized package followed by less than a header or by a broken record. */
  lemma {:induction false} EveryFile(s: seq<Byte>)
    ensures var (images, tail) := Split(s);
            s == Serialize(images) + tail && (|tail| < 8 || Broken(tail))
    decreases |s|
  {
    if |s| < 8 || Broken(s) {
      assert [] + s == s;
    } else {
      var img := FirstImage(s);
      var later := s[8 + |img.data|..];
      var (images, tail) := Split(later);
      RecordOf(s);
      EveryFile(later);
      assert ([img] + images)[1..] == images;
      assert Record(img) + (Serialize(images) + tail) == (Record(img) + Serialize(images)) + tail;
    }
  }

  /**
   * For every file, every work size, and all codes and allocations: the update is started exactly if the first nonzero
   * code of a complete image is positive or, when there is none, no broken record follows.
   */
  lemma UpdateForEveryFile(s: seq<Byte>, env: Env)
    requires env.work > 0
    ensures var (images, tail) := Split(s);
            var first := FirstFailure(images, 0, 0, env);
            Package(s, 0, env).code >= 0 <==> first > 0 || (first == 0 && !Broken(tail))
  {
    EveryFile(s);
    var (images, tail) := Split(s);
    if Broken(tail) {
      BrokenRecordIff(images, tail, env);
    } else {
      UpdateIff(images, tail, env);
    }
  }

  // ---------------------------------------------------------------- replies of the message-queue client

  lemma {:induction false} NoPositiveCode(images: seq<Image>, k: nat, env: Env)
    requires env.work > 0 && AllLoadable(images) && forall j :: env.reply(j) <= 0
    ensures FirstFailure(images, 0, k, env) <= 0
  {
    if images != [] {
      assert ImageCode(images[0], k, env) <= 0;
      NoPositiveCode(images[1..], k + ChunkCount(|images[0].data|, env.work), env);
    }
  }

  /** With replies of zero or less, as the client's mq_send gives, a broken record always stops the update. */
  lemma BrokenRecordStopsUpdate(images: seq<Image>, tail: seq<Byte>, env: Env)
    requires env.work > 0 && AllLoadable(images) && Broken(tail) && forall j :: env.reply(j) <= 0
    ensures Package(Serialize(images) + tail, 0, env).code < 0
  {
    NoPositiveCode(images, 0, env);
    BrokenRecordIff(images, tail, env);
  }

  /** The middle one of three chunks is refused with -1: nobody notices, and the code zero starts the update. */
  lemma ChunkLost()
    ensures var image, env := Image(0, [7, 8, 9]), Env(1, j => if j == 1 then -1 else 0, j => true);
            var o := Package(Serialize([image]), 0, env);
            |o.calls| == 3 && o.calls[1].data == [8] && env.reply(1) == -1 && o.code == 0
  {
    var image, env := Image(0, [7, 8, 9]), Env(1, j => if j == 1 then -1 else 0, j => true);
    ParseSerialize([image], []);
    assert Serialize([image]) + [] == Serialize([image]);
    assert ItemsOf([image]) + [] == [ItemOf(image)] + [];
    FirstItem(ItemOf(image), [], 0, 0, env);
    ThreeChunks(image, env);
  }

  lemma ThreeChunks(image: Image, env: Env)
    requires image == Image(0, [7, 8, 9]) && env.work == 1 && forall j :: env.memory(j)
    ensures var o := LoadItem(ItemOf(image), 0, env);
            |o.calls| == 3 && o.calls[1].data == [8] && o.code == env.reply(2)
  {
    FirstChunk([7, 8, 9], 0, 3, 0, env);
    FirstChunk([8, 9], 0, 3, 1, env);
    assert [7, 8, 9][1..] == [8, 9] && [8, 9][1..] == [9];
    LastChunk([9], 0, 3, 2, env);
  }

  // ---------------------------------------------------------------- the bytes of a package

  function FromBytes(b0: int, b1: int, b2: int, b3: int): int {
    b0 + 0x100 * b1 + 0x1_0000 * b2 + 0x100_0000 * b3
  }

  /** A header is two numbers of four bytes, low byte first: the type, then the size; the data follow. */
  lemma HeaderLayout(s: seq<Byte>)
    requires |s| >= 8
    ensures Parse(s).0 != []
    ensures var item := Parse(s).0[0];
            && item.fwtype == FromBytes(s[0], s[1], s[2], s[3])
            && item.fwsize == FromBytes(s[4], s[5], s[6], s[7])
            && item.data == s[8..8 + Min(item.fwsize, |s| - 8)]
  {
    FourBytes(s[..4]);
    FourBytes(s[4..8]);
  }

  lemma FourBytes(s: seq<Byte>)
    requires |s| == 4
    ensures Field(s) == FromBytes(s[0], s[1], s[2], s[3])
  {
    assert s[1..][1..] == s[2..] && s[2..][1..] == s[3..] && s[3..][1..] == [];
    var w3: int := Word(s[3..]);
    var w2: int := Word(s[2..]);
    var w1: int := Word(s[1..]);
    var b0: int, b1: int, b2: int, b3: int := s[0], s[1], s[2], s[3];
    assert Word(s[3..][1..]) == 0;
    assert w3 == b3 + 0x100 * Word(s[3..][1..]);
    assert w2 == b2 + 0x100 * Word(s[2..][1..]);
    assert w1 == b1 + 0x100 * Word(s[1..][1..]);
    assert Word(s) == b0 + 0x100 * w1;
  }

  /** A record of size zero downloads nothing and gives -ENOENT. */
  lemma EmptyRecord(fwtype: UInt32, data: seq<Byte>, k: nat, env: Env)
    requires env.work > 0
    ensures LoadItem(Item(fwtype, 0, data), k, env) == Outcome([], -2)
  {
  }

  /** Of a record whose data are cut short, only whole work sizes are downloaded: the rest is kept from the updater. */
  lemma {:induction false} CutShortCalls(s: seq<Byte>, fwtype: UInt32, fwsize: UInt32, remain: nat, k: nat, env: Env)
    requires env.work > 0 && |s| < remain
    ensures var calls := Partial(s, fwtype, fwsize, remain, k, env).calls;
            && |Gather(calls)| <= |s| && Gather(calls) == s[..|Gather(calls)|]
            && forall i | 0 <= i < |calls| ::
                 calls[i] == Download(fwtype, fwsize, calls[i].data) && |calls[i].data| == env.work
    decreases remain
  {
    var w := env.work;
    if env.memory(k) && |s| >= w {
      CutShortCalls(s[w..], fwtype, fwsize, remain - w, k + 1, env);
      var later := Partial(s[w..], fwtype, fwsize, remain - w, k + 1, env).calls;
      GatherNext(Download(fwtype, fwsize, s[..w]), later, s, w);
      assert Partial(s, fwtype, fwsize, remain, k, env).calls == [Download(fwtype, fwsize, s[..w])] + later;
    }
  }

  /** Unless a buffer cannot be allocated, all whole work sizes are downloaded, and the code is -ENODATA. */
  lemma {:induction false} CutShortCode(s: seq<Byte>, fwtype: UInt32, fwsize: UInt32, remain: nat, k: nat, env: Env)
    requires env.work > 0 && |s| < remain && forall j :: env.memory(j)
    ensures var o := Partial(s, fwtype, fwsize, remain, k, env);
            o.code == -61 && |s| - env.work < |o.calls| * env.work <= |s|
    decreases remain
  {
    var w := env.work;
    if |s| >= w {
      CutShortCode(s[w..], fwtype, fwsize, remain - w, k + 1, env);
      var o := Partial(s, fwtype, fwsize, remain, k, env);
      var later := Partial(s[w..], fwtype, fwsize, remain - w, k + 1, env);
      assert |o.calls| == 1 + |later.calls| && o.code == later.code;
      OneMore(|later.calls|, w);
    }
  }

  lemma OneMore(n: nat, w: nat)
    ensures (1 + n) * w == w + n * w
  {
  }

  lemma GatherNext(d: Download, calls: seq<Download>, s: seq<Byte>, w: nat)
    requires w <= |s| && d.data == s[..w]
    requires |Gather(calls)| <= |s| - w && Gather(calls) == s[w..][..|Gather(calls)|]
    ensures Gather([d] + calls) == s[..w + |Gather(calls)|] && |Gather([d] + calls)| == w + |Gather(calls)|
  {
    assert ([d] + calls)[1..] == calls;
    assert s[..w] + s[w..][..|Gather(calls)|] == s[..w + |Gather(calls)|];
  }
}
