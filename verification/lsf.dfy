/** The framing of DUNE's LSF logs (pyimc/lsf.py): a file is a run of
    records, each a packed little-endian 20-byte IMC header, `size` bytes
    of payload and a 2-byte CRC footer. `LSFReader.read` walks the records
    from the start of the file and hands each one to the codec's parser,
    which is a parameter here. */
module Lsf {
  import opened Prelude

  type Byte = b: int | 0 <= b < 256

  /** The fields of `IMCHeader`. The timestamp is a C double the codec
      decodes; it is kept as its eight bytes. */
  datatype LsfHeader = LsfHeader(
    sync: int, mgid: int, size: int, timestamp: seq<Byte>,
    src: int, srcEnt: int, dst: int, dstEnt: int)

  /** `ctypes.sizeof(IMCHeader)` and `ctypes.sizeof(IMCFooter)`. */
  const HeaderSize: nat := 20
  const FooterSize: nat := 2

  /** Byte offsets of the fields, packed without padding (`_pack_ = 1`). */
  const SyncAt: nat := 0
  const MgidAt: nat := 2
  const SizeAt: nat := 4
  const TimestampAt: nat := 6
  const SrcAt: nat := 14
  const SrcEntAt: nat := 16
  const DstAt: nat := 17
  const DstEntAt: nat := 19

  predicate IsU16(v: int) { 0 <= v < 0x1_0000 }
  predicate IsU8(v: int) { 0 <= v < 0x100 }

  /** Field values that fit their C types. */
  predicate ValidHeader(h: LsfHeader) {
    && IsU16(h.sync) && IsU16(h.mgid) && IsU16(h.size) && |h.timestamp| == 8
    && IsU16(h.src) && IsU8(h.srcEnt) && IsU16(h.dst) && IsU8(h.dstEnt)
  }

  /** A `c_uint16` read little-endian at `off`. */
  function U16At(bs: seq<Byte>, off: nat): (v: int)
    requires off + 2 <= |bs|
    ensures IsU16(v)
  {
    bs[off] as int + 0x100 * (bs[off + 1] as int)
  }

  /** The two little-endian bytes of a `c_uint16`. */
  function U16Bytes(v: int): (bs: seq<Byte>)
    requires IsU16(v)
    ensures |bs| == 2 && U16At(bs, 0) == v
  {
    [v % 0x100, v / 0x100]
  }

  /** A 16-bit value is its two bytes. */
  lemma U16BytesOf(bs: seq<Byte>, off: nat)
    requires off + 2 <= |bs|
    ensures U16Bytes(U16At(bs, off)) == bs[off..off + 2]
  {
  }

  /** The 20 bytes of a header. */
  function EncodeHeader(h: LsfHeader): (bs: seq<Byte>)
    requires ValidHeader(h)
    ensures |bs| == HeaderSize
  {
    U16Bytes(h.sync) + U16Bytes(h.mgid) + U16Bytes(h.size) + h.timestamp
    + U16Bytes(h.src) + [h.srcEnt] + U16Bytes(h.dst) + [h.dstEnt]
  }

  /** `readinto(header)` on 20 bytes. */
  function DecodeHeader(bs: seq<Byte>): (h: LsfHeader)
    requires |bs| == HeaderSize
    ensures ValidHeader(h)
  {
    LsfHeader(U16At(bs, SyncAt), U16At(bs, MgidAt), U16At(bs, SizeAt), bs[TimestampAt..TimestampAt + 8],
              U16At(bs, SrcAt), bs[SrcEntAt], U16At(bs, DstAt), bs[DstEntAt])
  }

  /** Each field sits at its offset: the encoded header read back at the
      field offsets gives the fields. */
  lemma EncodeHeaderLayout(h: LsfHeader)
    requires ValidHeader(h)
    ensures var bs := EncodeHeader(h);
            && U16At(bs, SyncAt) == h.sync && U16At(bs, MgidAt) == h.mgid
            && U16At(bs, SizeAt) == h.size && bs[TimestampAt..TimestampAt + 8] == h.timestamp
            && U16At(bs, SrcAt) == h.src && bs[SrcEntAt] == h.srcEnt
            && U16At(bs, DstAt) == h.dst && bs[DstEntAt] == h.dstEnt
  {
    var bs := EncodeHeader(h);
    assert bs[TimestampAt..TimestampAt + 8] == h.timestamp;
  }

  lemma DecodeEncodeHeader(h: LsfHeader)
    requires ValidHeader(h)
    ensures DecodeHeader(EncodeHeader(h)) == h
  {
    EncodeHeaderLayout(h);
  }

  lemma EncodeDecodeHeader(bs: seq<Byte>)
    requires |bs| == HeaderSize
    ensures EncodeHeader(DecodeHeader(bs)) == bs
  {
    var h := DecodeHeader(bs);
    var e := EncodeHeader(h);
    forall i | 0 <= i < HeaderSize ensures e[i] == bs[i] {
      if i < TimestampAt || i >= SrcAt {
        U16BytesOf(bs, SyncAt);
        U16BytesOf(bs, MgidAt);
        U16BytesOf(bs, SizeAt);
        U16BytesOf(bs, SrcAt);
        U16BytesOf(bs, DstAt);
      }
    }
  }

  // ---------------------------------------------------------------------
  // the record walk
  // ---------------------------------------------------------------------

  /** What a read produces: the parsed records, the byte offset each one
      started at (`self.pos`), and the exception that ended the walk. */
  datatype Walked<M> = Walked(msgs: seq<M>, starts: seq<nat>, exc: Option<Exc>)

  /** The length of the record at the front of `bs`: header, payload
      (`header.size`, the 16-bit field at offset 4) and footer, or what is
      left of the file when that is less (`f.read(n)` stops at the end). */
  function RecordLength(bs: seq<Byte>): (n: nat)
    requires |bs| >= HeaderSize
    ensures HeaderSize <= n <= |bs|
  {
    var want := U16At(bs, SizeAt) + HeaderSize + FooterSize;
    if want <= |bs| then want else |bs|
  }

  /** The loop of `read()` on the unread bytes `bs`, the first of which is
      at file offset `pos`: it ends when nothing is left (`peek(1)` is
      empty), raises RuntimeError when fewer than 20 bytes are left for a
      header, and otherwise parses the record and moves past it. The sync
      number is not checked, and the requested message types do not
      filter anything. */
  function Walk<M>(bs: seq<Byte>, pos: nat, parse: seq<Byte> -> M): (w: Walked<M>)
    ensures |w.msgs| == |w.starts|
    decreases |bs|
  {
    if |bs| == 0 then Walked([], [], None)
    else if |bs| < HeaderSize then Walked([], [], Some(RuntimeError))
    else
      var n := RecordLength(bs);
      var rest := Walk(bs[n..], pos + n, parse);
      Walked([parse(bs[..n])] + rest.msgs, [pos] + rest.starts, rest.exc)
  }

  /** `LSFReader(path).read(msg_types)` over the file's bytes. */
  function Read<M>(file: seq<Byte>, parse: seq<Byte> -> M): Walked<M> {
    Walk(file, 0, parse)
  }

  /** The size field of the header at `k`. */
  lemma SizeField(bs: seq<Byte>)
    requires |bs| >= HeaderSize
    ensures DecodeHeader(bs[..HeaderSize]).size == U16At(bs, SizeAt)
  {
  }

  /** Every record start lies inside the unread bytes, and the first one is
      where the walk began. */
  lemma {:induction false} WalkStartsInside<M>(bs: seq<Byte>, pos: nat, parse: seq<Byte> -> M)
    ensures var w := Walk(bs, pos, parse);
            && (|w.starts| > 0 ==> w.starts[0] == pos)
            && (forall i :: 0 <= i < |w.starts| ==> pos <= w.starts[i] < pos + |bs|)
    decreases |bs|
  {
    if |bs| >= HeaderSize {
      var n := RecordLength(bs);
      WalkStartsInside(bs[n..], pos + n, parse);
    }
  }

  /** Each record after the first starts right after the previous one: at
      its start plus the header, the payload size the header declares, and
      the footer. So record starts strictly increase. */
  lemma {:induction false} WalkStartsStep<M>(bs: seq<Byte>, pos: nat, parse: seq<Byte> -> M, i: nat)
    requires i + 1 < |Walk(bs, pos, parse).starts|
    ensures var w := Walk(bs, pos, parse);
            var k := w.starts[i] - pos;
            && 0 <= k && k + HeaderSize <= |bs|
            && w.starts[i + 1] == w.starts[i] + U16At(bs, k + SizeAt) + HeaderSize + FooterSize
    decreases |bs|
  {
    var n := RecordLength(bs);
    var rest := Walk(bs[n..], pos + n, parse);
    WalkCons(bs, pos, parse);
    if i == 0 {
      assert |bs[n..]| > 0;
    } else {
      WalkStartsStep(bs[n..], pos + n, parse, i - 1);
      var k := rest.starts[i - 1] - pos;
      U16AtDrop(bs, n, k - n + SizeAt);
    }
  }

  /** One step of the walk: the record at the front, then the rest. */
  lemma WalkCons<M>(bs: seq<Byte>, pos: nat, parse: seq<Byte> -> M)
    requires |bs| >= HeaderSize
    ensures var n := RecordLength(bs);
            Walk(bs, pos, parse).starts == [pos] + Walk(bs[n..], pos + n, parse).starts
  {
  }

  /** A 16-bit field read after dropping a prefix is the same field read
      further along. */
  lemma U16AtDrop(bs: seq<Byte>, n: nat, off: nat)
    requires n + off + 2 <= |bs|
    ensures U16At(bs[n..], off) == U16At(bs, n + off)
  {
  }

  /** The walk fails exactly when it reaches a record start with between 1
      and 19 bytes left, and the exception is then RuntimeError. */
  lemma {:induction false} WalkFails<M>(bs: seq<Byte>, pos: nat, parse: seq<Byte> -> M)
    ensures var w := Walk(bs, pos, parse);
            && (w.exc.Some? ==> w.exc == Some(RuntimeError))
            && (w.exc.Some? <==> |Leftover(bs)| > 0)
    decreases |bs|
  {
    if |bs| >= HeaderSize {
      WalkFails(bs[RecordLength(bs)..], pos + RecordLength(bs), parse);
    }
  }

  /** The bytes left where the walk stops stepping over whole records. */
  function Leftover(bs: seq<Byte>): (r: seq<Byte>)
    ensures |r| < HeaderSize && |r| <= |bs|
    decreases |bs|
  {
    if |bs| < HeaderSize then bs else Leftover(bs[RecordLength(bs)..])
  }

  // ---------------------------------------------------------------------
  // writing a log
  // ---------------------------------------------------------------------

  /** One logged message: its header, payload and CRC. */
  datatype Record = Record(h: LsfHeader, payload: seq<Byte>, crc: int)

  /** The header fits its fields and announces the payload's length. */
  predicate WellFramed(r: Record) {
    ValidHeader(r.h) && r.h.size == |r.payload| && IsU16(r.crc)
  }

  function Frame(r: Record): (bs: seq<Byte>)
    requires WellFramed(r)
    ensures |bs| == HeaderSize + |r.payload| + FooterSize
  {
    EncodeHeader(r.h) + r.payload + U16Bytes(r.crc)
  }

  /** A chunk the walk takes as one record: a header whose size field,
      with the header and footer, is the chunk's length. */
  predicate IsFrame(c: seq<Byte>) {
    |c| >= HeaderSize && U16At(c, SizeAt) + HeaderSize + FooterSize == |c|
  }

  function Concat(fs: seq<seq<Byte>>): (bs: seq<Byte>) {
    if |fs| == 0 then [] else fs[0] + Concat(fs[1..])
  }

  /** Where each chunk of `Concat(fs)` starts, from `pos` on. */
  function Starts(fs: seq<seq<Byte>>, pos: nat): (os: seq<nat>)
    ensures |os| == |fs|
  {
    if |fs| == 0 then [] else [pos] + Starts(fs[1..], pos + |fs[0]|)
  }

  /** The walk takes a frame at the front as one record and goes on right
      after it. */
  lemma WalkOneFrame<M>(c: seq<Byte>, tail: seq<Byte>, pos: nat, parse: seq<Byte> -> M)
    requires IsFrame(c)
    ensures var rest := Walk(tail, pos + |c|, parse);
            Walk(c + tail, pos, parse) == Walked([parse(c)] + rest.msgs, [pos] + rest.starts, rest.exc)
  {
    var bs := c + tail;
    assert bs[SizeAt] == c[SizeAt] && bs[SizeAt + 1] == c[SizeAt + 1];
    assert RecordLength(bs) == |c|;
    assert bs[..|c|] == c && bs[|c|..] == tail;
  }

  /** A byte string cut into frames is walked frame by frame. */
  lemma {:induction false} WalkFrames<M>(fs: seq<seq<Byte>>, pos: nat, parse: seq<Byte> -> M)
    requires forall i :: 0 <= i < |fs| ==> IsFrame(fs[i])
    ensures var w := Walk(Concat(fs), pos, parse);
            && w.exc == None
            && w.starts == Starts(fs, pos)
            && |w.msgs| == |fs|
            && forall i :: 0 <= i < |fs| ==> w.msgs[i] == parse(fs[i])
  {
    if |fs| > 0 {
      var tail := fs[1..];
      assert forall i :: 0 <= i < |tail| ==> tail[i] == fs[i + 1];
      assert Concat(fs) == fs[0] + Concat(tail);
      WalkFrames(tail, pos + |fs[0]|, parse);
      WalkOneFrame(fs[0], Concat(tail), pos, parse);
      var w := Walk(Concat(fs), pos, parse);
      var rest := Walk(Concat(tail), pos + |fs[0]|, parse);
      assert w.msgs == [parse(fs[0])] + rest.msgs;
      forall i | 0 <= i < |fs| ensures w.msgs[i] == parse(fs[i]) {
        if i > 0 {
          assert w.msgs[i] == rest.msgs[i - 1];
        }
      }
    }
  }

  /** Each record's frame. */
  function Frames(rs: seq<Record>): (fs: seq<seq<Byte>>)
    requires forall i :: 0 <= i < |rs| ==> WellFramed(rs[i])
    ensures |fs| == |rs| && forall i :: 0 <= i < |rs| ==> fs[i] == Frame(rs[i])
  {
    seq(|rs|, i requires 0 <= i < |rs| => Frame(rs[i]))
  }

  /** The bytes of a log holding the records in order. */
  function Log(rs: seq<Record>): seq<Byte>
    requires forall i :: 0 <= i < |rs| ==> WellFramed(rs[i])
  {
    Concat(Frames(rs))
  }

  /** Where each record of a log starts, from `pos` on. */
  function Offsets(rs: seq<Record>, pos: nat): (os: seq<nat>)
    requires forall i :: 0 <= i < |rs| ==> WellFramed(rs[i])
    ensures |os| == |rs|
  {
    Starts(Frames(rs), pos)
  }

  /** A framed record is a frame: its header announces its payload. */
  lemma FrameIsFrame(r: Record)
    requires WellFramed(r)
    ensures IsFrame(Frame(r))
  {
    var bs := Frame(r);
    assert bs[..HeaderSize] == EncodeHeader(r.h);
    EncodeHeaderLayout(r.h);
    assert bs[SizeAt] == EncodeHeader(r.h)[SizeAt] && bs[SizeAt + 1] == EncodeHeader(r.h)[SizeAt + 1];
  }

  /** Reading a log written record by record gives every record to the
      parser, whole and in order, reports where each one starts, and ends
      without an exception. */
  lemma ReadLog<M>(rs: seq<Record>, pos: nat, parse: seq<Byte> -> M)
    requires forall i :: 0 <= i < |rs| ==> WellFramed(rs[i])
    ensures var w := Walk(Log(rs), pos, parse);
            && w.exc == None
            && w.starts == Offsets(rs, pos)
            && |w.msgs| == |rs|
            && forall i :: 0 <= i < |rs| ==> w.msgs[i] == parse(Frame(rs[i]))
  {
    var fs := Frames(rs);
    forall i | 0 <= i < |fs|
      ensures IsFrame(fs[i])
    {
      FrameIsFrame(rs[i]);
    }
    WalkFrames(fs, pos, parse);
  }
}
