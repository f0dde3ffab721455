/** The log record encoding, and decoding of a byte stream that may be cut anywhere. */
module LogCodec {
  import opened Bytes
  import opened Common

  // ---------- Log records ----------

  const KIND_COMMIT: U32 := 1
  const KIND_CHECKPOINT: U32 := 3
  const KIND_INSERT: U32 := 6
  const KIND_UPDATE: U32 := 7
  const KIND_DELETE: U32 := 8

  type Payload = bs: seq<Byte> | |bs| < 0x1_0000

  /** The fixed fields of a record, in encoding order; `time` is in whole seconds. */
  datatype Header = Header(lsn: U64, kind: U32, tx: U64, page: U64, offset: U32, length: U16, prevLsn: U64, time: U64)

  datatype LogRecord = LogRecord(
    lsn: U64, kind: U32, tx: U64, page: U64, offset: U32, data: Payload, prevLsn: U64, time: U64)

  const HEADER_SIZE: nat := 50

  function HeaderOf(r: LogRecord): Header {
    Header(r.lsn, r.kind, r.tx, r.page, r.offset, |r.data|, r.prevLsn, r.time)
  }

  function EncodeHeader(h: Header): (bs: seq<Byte>)
    ensures |bs| == HEADER_SIZE
  {
    ToBytes(8, h.lsn) + (ToBytes(4, h.kind) + (ToBytes(8, h.tx) + (ToBytes(8, h.page)
    + (ToBytes(4, h.offset) + (ToBytes(2, h.length) + (ToBytes(8, h.prevLsn) + ToBytes(8, h.time)))))))
  }

  function Encode(r: LogRecord): (bs: seq<Byte>)
    ensures |bs| == HEADER_SIZE + |r.data|
  {
    EncodeHeader(HeaderOf(r)) + r.data
  }

  /** The value of the field at `bs[lo..hi]`. */
  function Field(bs: seq<Byte>, lo: nat, hi: nat): nat
    requires lo <= hi <= |bs|
  {
    FromBytes(bs[lo..hi])
  }

  function DecodeHeader(bs: seq<Byte>): Header
    requires |bs| >= HEADER_SIZE
  {
    FieldWidths();
    Header(Field(bs, 0, 8), Field(bs, 8, 12), Field(bs, 12, 20), Field(bs, 20, 28),
           Field(bs, 28, 32), Field(bs, 32, 34), Field(bs, 34, 42), Field(bs, 42, 50))
  }

  /** The record at the front of `bs`; none when the bytes end before the record does. */
  function Decode(bs: seq<Byte>): (r: Option<LogRecord>)
    ensures r.Some? ==> HEADER_SIZE + |r.value.data| <= |bs|
  {
    if |bs| < HEADER_SIZE then None
    else
      var h := DecodeHeader(bs);
      if |bs| < HEADER_SIZE + h.length then None
      else Some(LogRecord(h.lsn, h.kind, h.tx, h.page, h.offset,
                          bs[HEADER_SIZE..HEADER_SIZE + h.length], h.prevLsn, h.time))
  }

  /** A field that ends `rest` bytes before the end of a stream is the front field of what remains. */
  lemma FieldAfter(pre: seq<Byte>, width: nat, v: nat, tail: seq<Byte>)
    requires v < Pow256(width)
    ensures Field(pre + (ToBytes(width, v) + tail), |pre|, |pre| + width) == v
  {
    FieldReadsBack(width, v, tail);
    var all := pre + (ToBytes(width, v) + tail);
    assert all[|pre|..|pre| + width] == (ToBytes(width, v) + tail)[..width];
  }

  lemma HeaderFields1(h: Header, tail: seq<Byte>)
    ensures var bs := EncodeHeader(h) + tail;
      Field(bs, 0, 8) == h.lsn && Field(bs, 8, 12) == h.kind && Field(bs, 12, 20) == h.tx && Field(bs, 20, 28) == h.page
  {
    hide ToBytes, FromBytes, Pow256, Field;
    FieldWidths();
    var a, b, c, d := ToBytes(8, h.lsn), ToBytes(4, h.kind), ToBytes(8, h.tx), ToBytes(8, h.page);
    var rest := ToBytes(4, h.offset) + (ToBytes(2, h.length) + (ToBytes(8, h.prevLsn) + ToBytes(8, h.time))) + tail;
    var bs := EncodeHeader(h) + tail;
    assert bs == [] + (a + (b + (c + (d + rest))));
    FieldAfter([], 8, h.lsn, b + (c + (d + rest)));
    assert bs == a + (b + (c + (d + rest)));
    FieldAfter(a, 4, h.kind, c + (d + rest));
    assert bs == (a + b) + (c + (d + rest));
    FieldAfter(a + b, 8, h.tx, d + rest);
    assert bs == (a + b + c) + (d + rest);
    FieldAfter(a + b + c, 8, h.page, rest);
  }

  lemma HeaderFields2(h: Header, tail: seq<Byte>)
    ensures var bs := EncodeHeader(h) + tail;
      Field(bs, 28, 32) == h.offset && Field(bs, 32, 34) == h.length && Field(bs, 34, 42) == h.prevLsn && Field(bs, 42, 50) == h.time
  {
    hide ToBytes, FromBytes, Pow256, Field;
    FieldWidths();
    var pre := ToBytes(8, h.lsn) + ToBytes(4, h.kind) + ToBytes(8, h.tx) + ToBytes(8, h.page);
    var a, b, c, d := ToBytes(4, h.offset), ToBytes(2, h.length), ToBytes(8, h.prevLsn), ToBytes(8, h.time);
    var bs := EncodeHeader(h) + tail;
    assert bs == pre + (a + (b + (c + (d + tail))));
    FieldAfter(pre, 4, h.offset, b + (c + (d + tail)));
    assert bs == (pre + a) + (b + (c + (d + tail)));
    FieldAfter(pre + a, 2, h.length, c + (d + tail));
    assert bs == (pre + a + b) + (c + (d + tail));
    FieldAfter(pre + a + b, 8, h.prevLsn, d + tail);
    assert bs == (pre + a + b + c) + (d + tail);
    FieldAfter(pre + a + b + c, 8, h.time, tail);
  }

  lemma HeaderReadsBack(h: Header, tail: seq<Byte>)
    ensures DecodeHeader(EncodeHeader(h) + tail) == h
  {
    hide EncodeHeader, Field;
    HeaderFields1(h, tail);
    HeaderFields2(h, tail);
  }

  /** A record is read back from the front of any stream. */
  lemma DecodeEncode(r: LogRecord, tail: seq<Byte>)
    ensures Decode(Encode(r) + tail) == Some(r)
    ensures (Encode(r) + tail)[|Encode(r)|..] == tail
  {
    hide EncodeHeader, DecodeHeader;
    var h := HeaderOf(r);
    HeaderReadsBack(h, r.data + tail);
    var bs := Encode(r) + tail;
    assert bs == EncodeHeader(h) + (r.data + tail);
    assert bs[HEADER_SIZE..HEADER_SIZE + |r.data|] == r.data;
  }

  /** The encoding is self-delimiting: a record cut short is not taken for a record. */
  lemma DecodeTorn(r: LogRecord, n: nat)
    requires n < |Encode(r)|
    ensures Decode(Encode(r)[..n]) == None
  {
    hide EncodeHeader, DecodeHeader;
    if n >= HEADER_SIZE {
      var h := HeaderOf(r);
      HeaderReadsBack(h, r.data[..n - HEADER_SIZE]);
      assert Encode(r)[..n] == EncodeHeader(h) + r.data[..n - HEADER_SIZE];
    }
  }

  // ---------- Streams of records ----------

  function EncodeAll(rs: seq<LogRecord>): seq<Byte> {
    if rs == [] then [] else Encode(rs[0]) + EncodeAll(rs[1..])
  }

  /** Repeated decoding from the front, until the bytes no longer hold a whole record. */
  function DecodeAll(bs: seq<Byte>): seq<LogRecord>
    decreases |bs|
  {
    match Decode(bs)
    case None => []
    case Some(r) => [r] + DecodeAll(bs[HEADER_SIZE + |r.data|..])
  }

  lemma EncodeAllUnfolds(rs: seq<LogRecord>)
    ensures EncodeAll(rs) == if rs == [] then [] else Encode(rs[0]) + EncodeAll(rs[1..])
  {}

  lemma {:induction false} EncodeAllConcat(a: seq<LogRecord>, b: seq<LogRecord>)
    ensures EncodeAll(a + b) == EncodeAll(a) + EncodeAll(b)
  {
    hide Encode, EncodeAll;
    if a == [] {
      assert a + b == b;
      EncodeAllUnfolds(a);
    } else {
      EncodeAllConcat(a[1..], b);
      EncodeAllUnfolds(a);
      EncodeAllUnfolds(a + b);
      assert (a + b)[1..] == a[1..] + b;
    }
  }

  /** How many leading records fit whole into `n` bytes. */
  function WholeRecords(rs: seq<LogRecord>, n: nat): (k: nat)
    ensures k <= |rs|
  {
    if rs == [] || n < |Encode(rs[0])| then 0 else 1 + WholeRecords(rs[1..], n - |Encode(rs[0])|)
  }

  lemma DecodeAllStep(r: LogRecord, tail: seq<Byte>)
    ensures DecodeAll(Encode(r) + tail) == [r] + DecodeAll(tail)
  {
    hide Encode, Decode;
    DecodeEncode(r, tail);
  }

  /** Decoding a stream cut at any byte yields exactly the records that are whole before the cut. */
  lemma {:induction false} DecodeCutStream(rs: seq<LogRecord>, n: nat)
    requires n <= |EncodeAll(rs)|
    ensures DecodeAll(EncodeAll(rs)[..n]) == rs[..WholeRecords(rs, n)]
  {
    hide Encode, Decode;
    if rs == [] {
      DecodeNothing();
      assert EncodeAll(rs)[..n] == [];
    } else {
      var first := Encode(rs[0]);
      var all := EncodeAll(rs);
      if n < |first| {
        DecodeTorn(rs[0], n);
        assert all[..n] == first[..n];
      } else {
        var m := n - |first|;
        DecodeCutStream(rs[1..], m);
        assert all[..n] == first + EncodeAll(rs[1..])[..m];
        DecodeAllStep(rs[0], EncodeAll(rs[1..])[..m]);
        assert rs[..WholeRecords(rs, n)] == [rs[0]] + rs[1..][..WholeRecords(rs[1..], m)];
      }
    }
  }

  lemma DecodeNothing()
    ensures Decode([]) == None
  {}

  lemma {:induction false} WholeRecordsCover(a: seq<LogRecord>, b: seq<LogRecord>, n: nat)
    requires n >= |EncodeAll(a)|
    ensures WholeRecords(a + b, n) >= |a|
  {
    hide Encode;
    if a != [] {
      WholeRecordsCover(a[1..], b, n - |Encode(a[0])|);
      assert (a + b)[1..] == a[1..] + b;
    }
  }

  lemma FieldsInOrder(a: seq<Byte>, b: seq<Byte>, c: seq<Byte>, d: seq<Byte>, rest: seq<Byte>)
    requires |a| == 8 && |b| == 4 && |c| == 8 && |d| == 8
    ensures var bs := a + (b + (c + (d + rest)));
      bs[0..8] == a && bs[8..12] == b && bs[12..20] == c && bs[20..28] == d && bs[28..] == rest
  {}

  lemma FieldsInOrderAfter(a: seq<Byte>, b: seq<Byte>, c: seq<Byte>, d: seq<Byte>, rest: seq<Byte>)
    requires |a| == 4 && |b| == 2 && |c| == 8 && |d| == 8
    ensures var bs := a + (b + (c + (d + rest)));
      bs[0..4] == a && bs[4..6] == b && bs[6..14] == c && bs[14..22] == d && bs[22..] == rest
  {}

  /** The bytes of a record: LSN, type, transaction, page, offset, payload length, previous LSN and
      time at fixed places, each little-endian by ByteAt, and then the payload. */
  lemma RecordLayout(r: LogRecord)
    ensures
      var bs := Encode(r);
      && bs[0..8] == ToBytes(8, r.lsn) && bs[8..12] == ToBytes(4, r.kind)
      && bs[12..20] == ToBytes(8, r.tx) && bs[20..28] == ToBytes(8, r.page)
      && bs[28..32] == ToBytes(4, r.offset) && bs[32..34] == ToBytes(2, |r.data|)
      && bs[34..42] == ToBytes(8, r.prevLsn) && bs[42..50] == ToBytes(8, r.time) && bs[50..] == r.data
  {
    hide ToBytes;
    var late := ToBytes(4, r.offset) + (ToBytes(2, |r.data|) + (ToBytes(8, r.prevLsn) + (ToBytes(8, r.time) + r.data)));
    var bs := ToBytes(8, r.lsn) + (ToBytes(4, r.kind) + (ToBytes(8, r.tx) + (ToBytes(8, r.page) + late)));
    assert Encode(r) == bs;
    FieldsInOrder(ToBytes(8, r.lsn), ToBytes(4, r.kind), ToBytes(8, r.tx), ToBytes(8, r.page), late);
    FieldsInOrderAfter(ToBytes(4, r.offset), ToBytes(2, |r.data|), ToBytes(8, r.prevLsn), ToBytes(8, r.time), r.data);
    SliceOfTail(bs, 28, 0, 4);
    SliceOfTail(bs, 28, 4, 6);
    SliceOfTail(bs, 28, 6, 14);
    SliceOfTail(bs, 28, 14, 22);
    assert bs[28..][22..] == bs[50..];
  }

  /** Places in what follows the first `n` bytes. */
  lemma SliceOfTail(bs: seq<Byte>, n: nat, i: nat, j: nat)
    requires i <= j && n + j <= |bs|
    ensures bs[n..][i..j] == bs[n + i..n + j]
  {}
}
