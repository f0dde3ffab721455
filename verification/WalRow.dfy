/** The encoding of a row in a log record of the write-ahead log. */
module WalRows {
  import opened Bytes

  type I32 = n: int | -0x8000_0000 <= n < 0x8000_0000
  type I64 = n: int | -0x8000_0000_0000_0000 <= n < 0x8000_0000_0000_0000
  /** Type numbers other than INTEGER, BIGINT, VARCHAR and BOOLEAN. */
  type OtherTag = t: Byte | t != 1 && t != 2 && t != 4 && t != 7

  /** A field. Of the types in `Other`, NULL among them (17), only the type is encoded. */
  datatype Field = Integer(n: I32) | BigInt(m: I64) | Boolean(b: bool) | Varchar(text: seq<Byte>) | Other(tag: OtherTag, hidden: int)

  function Unsigned32(n: I32): U32 {
    if n < 0 then n + 0x1_0000_0000 else n
  }

  function Signed32(u: U32): I32 {
    if u >= 0x8000_0000 then u - 0x1_0000_0000 else u
  }

  function Unsigned64(n: I64): U64 {
    if n < 0 then n + 0x1_0000_0000_0000_0000 else n
  }

  function Signed64(u: U64): I64 {
    if u >= 0x8000_0000_0000_0000 then u - 0x1_0000_0000_0000_0000 else u
  }

  function TypeByte(f: Field): Byte {
    match f
    case Integer(_) => 1
    case BigInt(_) => 2
    case Varchar(_) => 4
    case Boolean(_) => 7
    case Other(t, _) => t
  }

  const LENGTH_LIMIT: nat := 0x1_0000_0000

  /** The length of a text as its 32-bit field has it. */
  function StoredLength(s: seq<Byte>): (n: nat)
    ensures n <= |s| && n < LENGTH_LIMIT
  {
    |s| % LENGTH_LIMIT
  }

  function Body(f: Field): seq<Byte> {
    match f
    case Integer(n) => ToBytes(4, Unsigned32(n))
    case BigInt(n) => ToBytes(8, Unsigned64(n))
    case Boolean(b) => [if b then 1 else 0]
    case Varchar(s) => ToBytes(4, StoredLength(s)) + s[..StoredLength(s)]
    case Other(_, _) => []
  }

  function EncodeField(f: Field): seq<Byte> {
    [TypeByte(f)] + Body(f)
  }

  function EncodeFields(row: seq<Field>): seq<Byte> {
    if row == [] then [] else EncodeField(row[0]) + EncodeFields(row[1..])
  }

  function StoredCount(row: seq<Field>): (n: nat)
    ensures n <= |row| && n < 0x1_0000
  {
    |row| % 0x1_0000
  }

  /** The bytes that are written. The count is stored in 16 bits. */
  function WrittenRow(row: seq<Field>): seq<Byte> {
    ToBytes(2, StoredCount(row)) + EncodeFields(row)
  }

  /** The bytes allocated for a field beyond those written: the size counts the whole text. */
  function FieldSlack(f: Field): nat {
    if f.Varchar? then |f.text| - StoredLength(f.text) else 0
  }

  function Slack(row: seq<Field>): nat {
    if row == [] then 0 else FieldSlack(row[0]) + Slack(row[1..])
  }

  function Zeros(n: nat): (bs: seq<Byte>)
    ensures |bs| == n && forall i :: 0 <= i < n ==> bs[i] == 0
  {
    seq(n, i => 0)
  }

  /** The buffer handed out: what was written, and zeros up to the size allocated. */
  function EncodeRow(row: seq<Field>): seq<Byte> {
    WrittenRow(row) + Zeros(Slack(row))
  }

  // ---------- Decoding ----------

  /** The value read after a type byte and the bytes it takes. A field cut short keeps its type
      and the default value, and leaves the bytes where they are. */
  function DecodeBody(tag: Byte, bs: seq<Byte>): (r: (Field, nat))
    ensures r.1 <= |bs|
  {
    FieldWidths();
    if tag == 1 then (if |bs| >= 4 then (Integer(Signed32(FromBytes(bs[..4]))), 4) else (Integer(0), 0))
    else if tag == 2 then (if |bs| >= 8 then (BigInt(Signed64(FromBytes(bs[..8]))), 8) else (BigInt(0), 0))
    else if tag == 7 then (if |bs| >= 1 then (Boolean(bs[0] != 0), 1) else (Boolean(false), 0))
    else if tag == 4 then
      if |bs| < 4 then (Varchar([]), 0)
      else
        var len := FromBytes(bs[..4]);
        if 4 + len <= |bs| then (Varchar(bs[4..4 + len]), 4 + len) else (Varchar([]), 4)
    else (Other(tag, 0), 0)
  }

  function DecodeFields(count: nat, bs: seq<Byte>): seq<Field> {
    if count == 0 || bs == [] then []
    else
      var (f, n) := DecodeBody(bs[0], bs[1..]);
      [f] + DecodeFields(count - 1, bs[1 + n..])
  }

  function DecodeRow(bs: seq<Byte>): seq<Field> {
    if |bs| < 2 then [] else DecodeFields(FromBytes(bs[..2]), bs[2..])
  }

  // ---------- Round trip ----------

  /** What survives of a field. */
  function Kept(f: Field): Field {
    if f.Other? then Other(f.tag, 0) else if f.Varchar? then Varchar(f.text[..StoredLength(f.text)]) else f
  }

  function KeptRow(row: seq<Field>): (r: seq<Field>)
    ensures |r| == |row|
    ensures forall i :: 0 <= i < |row| ==> r[i] == Kept(row[i])
  {
    if row == [] then [] else [Kept(row[0])] + KeptRow(row[1..])
  }

  lemma BodyReadsBack(f: Field, tail: seq<Byte>)
    ensures DecodeBody(TypeByte(f), Body(f) + tail) == (Kept(f), |Body(f)|)
  {
    hide ToBytes, FromBytes, Pow256;
    FieldWidths();
    match f
    case Integer(n) => FieldReadsBack(4, Unsigned32(n), tail);
    case BigInt(n) => FieldReadsBack(8, Unsigned64(n), tail);
    case Varchar(s) =>
      var n := StoredLength(s);
      FieldReadsBack(4, n, s[..n] + tail);
      assert Body(f) + tail == ToBytes(4, n) + (s[..n] + tail);
      assert (Body(f) + tail)[4..4 + n] == s[..n];
    case _ =>
  }

  lemma FieldReadsOff(f: Field, tail: seq<Byte>, count: nat)
    requires count > 0
    ensures DecodeFields(count, EncodeField(f) + tail) == [Kept(f)] + DecodeFields(count - 1, tail)
  {
    hide Body, DecodeBody, TypeByte, Kept;
    BodyReadsBack(f, tail);
    var bs := EncodeField(f) + tail;
    assert bs[1..] == Body(f) + tail;
    assert bs[1 + |Body(f)|..] == tail;
  }

  lemma {:induction false} FieldsReadBack(row: seq<Field>, tail: seq<Byte>, count: nat)
    requires count <= |row|
    ensures DecodeFields(count, EncodeFields(row) + tail) == KeptRow(row)[..count]
  {
    hide EncodeField, Kept, DecodeFields;
    if count > 0 {
      FieldsReadBack(row[1..], tail, count - 1);
      FieldReadsOff(row[0], EncodeFields(row[1..]) + tail, count);
      assert EncodeFields(row) + tail == EncodeField(row[0]) + (EncodeFields(row[1..]) + tail);
      assert KeptRow(row)[..count] == [Kept(row[0])] + KeptRow(row[1..])[..count - 1];
    } else {
      NoFields(EncodeFields(row) + tail);
    }
  }

  lemma NoFields(bs: seq<Byte>)
    ensures DecodeFields(0, bs) == []
  {}

  /** Decoding an encoded row: the first fields up to the 16-bit count, without hidden payloads and
      with texts up to their 32-bit length. */
  lemma DecodeEncodedRow(row: seq<Field>)
    ensures DecodeRow(EncodeRow(row)) == KeptRow(row)[..StoredCount(row)]
  {
    hide *;
    var n, tail := StoredCount(row), Zeros(Slack(row));
    RowParts(row);
    CountReadsBack(n, EncodeFields(row) + tail);
    FieldsReadBack(row, tail, n);
  }

  lemma RowParts(row: seq<Field>)
    ensures EncodeRow(row) == ToBytes(2, StoredCount(row)) + (EncodeFields(row) + Zeros(Slack(row)))
  {
    hide EncodeFields, ToBytes, Slack, Zeros;
  }

  lemma CountReadsBack(n: nat, bs: seq<Byte>)
    requires n < 0x1_0000
    ensures DecodeRow(ToBytes(2, n) + bs) == DecodeFields(n, bs)
  {
    hide DecodeFields, ToBytes, FromBytes, Pow256;
    FieldWidths();
    FieldReadsBack(2, n, bs);
  }

  /** The field comes back as it was: its text fits the length field, and it carries nothing unencoded. */
  predicate Encodable(f: Field) {
    (f.Varchar? ==> |f.text| < LENGTH_LIMIT) && (f.Other? ==> f.hidden == 0)
  }

  lemma KeptIff(f: Field)
    ensures Kept(f) == f <==> Encodable(f)
  {
    if f.Varchar? && |f.text| < LENGTH_LIMIT {
      assert f.text[..|f.text|] == f.text;
    }
  }

  /** Row round trip: exactly the rows under 65536 fields whose texts are under 2^32 bytes and whose
      other-typed fields carry nothing. */
  lemma RowRoundTripIff(row: seq<Field>)
    ensures DecodeRow(EncodeRow(row)) == row <==>
      |row| < 0x1_0000 && forall i :: 0 <= i < |row| ==> Encodable(row[i])
  {
    hide DecodeRow, EncodeRow, Encodable, Kept;
    DecodeEncodedRow(row);
    forall i | 0 <= i < |row|
      ensures KeptRow(row)[i] == row[i] <==> Encodable(row[i])
    {
      KeptIff(row[i]);
    }
    var n := StoredCount(row);
    if |row| < 0x1_0000 {
      assert KeptRow(row)[..n] == KeptRow(row);
    }
  }

  /** The size allocated is the number of bytes written exactly when every text fits its length field. */
  lemma {:induction false} SizeIsExactIff(row: seq<Field>)
    ensures Slack(row) == 0 <==> forall i :: 0 <= i < |row| && row[i].Varchar? ==> |row[i].text| < LENGTH_LIMIT
    ensures |EncodeRow(row)| == |WrittenRow(row)| + Slack(row)
  {
    hide EncodeFields;
    if row != [] {
      SizeIsExactIff(row[1..]);
      var head, rest := row[0], row[1..];
      assert FieldSlack(head) == 0 <==> (head.Varchar? ==> |head.text| < LENGTH_LIMIT);
      assert forall i :: 0 <= i < |row| ==> row[i] == if i == 0 then head else rest[i - 1];
      assert forall i :: 0 <= i < |rest| ==> rest[i] == row[i + 1];
    }
  }

  // ---------- The codec ----------

  /** First pass of `serializeRecord`: the size to allocate. */
  method RowSize(row: seq<Field>) returns (size: nat)
    ensures size == |EncodeRow(row)| == |WrittenRow(row)| + Slack(row)
  {
    hide Body, TypeByte, FieldSlack;
    size := 2;
    assert row[0..] == row;
    for i := 0 to |row|
      invariant size + |EncodeFields(row[i..])| + Slack(row[i..]) == |EncodeRow(row)|
    {
      var bytes := BodySize(row[i]);
      assert row[i..][1..] == row[i + 1..];
      size := size + 1 + bytes;
    }
    assert row[|row|..] == [];
  }

  method BodySize(f: Field) returns (size: nat)
    ensures size == |Body(f)| + FieldSlack(f)
  {
    match f
    case Integer(_) => size := 4;
    case BigInt(_) => size := 8;
    case Boolean(_) => size := 1;
    case Varchar(s) => size := 4 + |s|;
    case Other(_, _) => size := 0;
  }

  /** The fields are written one after the other; bytes allocated beyond them stay zero. */
  method SerializeRow(row: seq<Field>) returns (buffer: array<Byte>)
    ensures fresh(buffer) && buffer[..] == EncodeRow(row)
  {
    hide EncodeField, Body, ToBytes, Slack, TypeByte;
    var size := RowSize(row);
    buffer := new Byte[size](i => 0);
    var p: nat := Copy(buffer, 0, ToBytes(2, StoredCount(row)));
    assert row[0..] == row;
    for i := 0 to |row|
      invariant p + |EncodeFields(row[i..])| + Slack(row) == size == buffer.Length
      invariant buffer[..p] + EncodeFields(row[i..]) == WrittenRow(row)
      invariant forall k :: p <= k < buffer.Length ==> buffer[k] == 0
    {
      assert row[i..][1..] == row[i + 1..];
      ghost var done := buffer[..p];
      p := WriteField(buffer, p, row[i]);
      assert done + (EncodeField(row[i]) + EncodeFields(row[i + 1..]))
          == (done + EncodeField(row[i])) + EncodeFields(row[i + 1..]);
    }
    assert row[|row|..] == [];
    assert buffer[..p] == WrittenRow(row);
    assert buffer[p..] == Zeros(Slack(row));
    assert buffer[..] == buffer[..p] + buffer[p..];
  }

  method WriteField(buffer: array<Byte>, at: nat, f: Field) returns (p: nat)
    requires at + |EncodeField(f)| <= buffer.Length
    modifies buffer
    ensures p == at + |EncodeField(f)| && buffer[..p] == old(buffer[..at]) + EncodeField(f)
    ensures forall k :: p <= k < buffer.Length ==> buffer[k] == old(buffer[k])
  {
    hide Body, TypeByte;
    p := Copy(buffer, at, [TypeByte(f)]);
    p := Copy(buffer, p, Body(f));
  }

  /** The decoder with its moving position, which never passes the end of the bytes. */
  method DeserializeRow(data: seq<Byte>) returns (row: seq<Field>)
    ensures row == DecodeRow(data)
  {
    hide DecodeBody, DecodeFields;
    row := [];
    if |data| < 2 {
      return;
    }
    var count := FromBytes(data[..2]);
    var p, i := 2, 0;
    while i < count && p < |data|
      invariant 2 <= p <= |data| && i <= count
      invariant row + DecodeFields(count - i, data[p..]) == DecodeRow(data)
    {
      FieldsUnfold(count - i, data[p..]);
      assert data[p..][1..] == data[p + 1..];
      var (f, n) := DecodeBody(data[p], data[p + 1..]);
      assert data[p..][1 + n..] == data[p + 1 + n..];
      assert row + ([f] + DecodeFields(count - i - 1, data[p + 1 + n..])) == (row + [f]) + DecodeFields(count - i - 1, data[p + 1 + n..]);
      row := row + [f];
      p := p + 1 + n;
      i := i + 1;
    }
    FieldsUnfold(count - i, data[p..]);
    assert row + [] == row;
  }

  lemma FieldsUnfold(count: nat, bs: seq<Byte>)
    ensures DecodeFields(count, bs) ==
      if count == 0 || bs == [] then []
      else [DecodeBody(bs[0], bs[1..]).0] + DecodeFields(count - 1, bs[1 + DecodeBody(bs[0], bs[1..]).1..])
  {}

  /** A row in bytes: the count, and for each field its type number and value, little-endian; a text
      has its length first, and a null has no value. */
  lemma RowSample()
    ensures EncodeRow([Integer(-2), BigInt(258), Varchar([104, 105]), Boolean(true), Other(17, 0)]) ==
      [5, 0, 1, 254, 255, 255, 255, 2, 2, 1, 0, 0, 0, 0, 0, 0, 4, 2, 0, 0, 0, 104, 105, 7, 1, 17]
  {
    hide ToBytes, EncodeFields, EncodeField, Slack, FieldSlack;
    var row := [Integer(-2), BigInt(258), Varchar([104, 105]), Boolean(true), Other(17, 0)];
    SampleNumbers();
    SampleFields();
    FiveFields(row);
    assert Zeros(0) == [];
    var fields := [1, 254, 255, 255, 255] + ([2, 2, 1, 0, 0, 0, 0, 0, 0] + ([4, 2, 0, 0, 0, 104, 105] + ([7, 1] + [17])));
    assert EncodeFields(row) == fields;
    assert [5, 0] + fields + [] ==
      [5, 0, 1, 254, 255, 255, 255, 2, 2, 1, 0, 0, 0, 0, 0, 0, 4, 2, 0, 0, 0, 104, 105, 7, 1, 17];
  }

  lemma SampleFields()
    ensures EncodeField(Integer(-2)) == [1, 254, 255, 255, 255] && EncodeField(BigInt(258)) == [2, 2, 1, 0, 0, 0, 0, 0, 0]
    ensures EncodeField(Varchar([104, 105])) == [4, 2, 0, 0, 0, 104, 105]
    ensures EncodeField(Boolean(true)) == [7, 1] && EncodeField(Other(17, 0)) == [17]
    ensures FieldSlack(Integer(-2)) == FieldSlack(BigInt(258)) == FieldSlack(Varchar([104, 105])) == 0
    ensures FieldSlack(Boolean(true)) == FieldSlack(Other(17, 0)) == 0
  {
    hide ToBytes;
    SampleNumbers();
    assert [104, 105][..2] == [104, 105];
  }

  lemma SampleNumbers()
    ensures ToBytes(2, 5) == [5, 0] && ToBytes(4, 0xFFFF_FFFE) == [254, 255, 255, 255] && ToBytes(4, 2) == [2, 0, 0, 0]
    ensures ToBytes(8, 258) == [2, 1, 0, 0, 0, 0, 0, 0]
  {
    assert forall w: nat :: ToBytes(w, 0) == [] || ToBytes(w, 0)[0] == 0;
    assert ToBytes(1, 0) == [0] && ToBytes(2, 0) == [0, 0] && ToBytes(3, 0) == [0, 0, 0];
    assert ToBytes(4, 0) == [0, 0, 0, 0] && ToBytes(5, 0) == [0, 0, 0, 0, 0] && ToBytes(6, 0) == [0, 0, 0, 0, 0, 0];
    assert ToBytes(7, 1) == [1] + ToBytes(6, 0);
    assert ToBytes(1, 255) == [255] && ToBytes(2, 0xFFFF) == [255, 255] && ToBytes(3, 0xFF_FFFF) == [255, 255, 255];
  }

  lemma FiveFields(row: seq<Field>)
    requires |row| == 5
    ensures EncodeFields(row) ==
      EncodeField(row[0]) + (EncodeField(row[1]) + (EncodeField(row[2]) + (EncodeField(row[3]) + EncodeField(row[4]))))
    ensures Slack(row) == FieldSlack(row[0]) + FieldSlack(row[1]) + FieldSlack(row[2]) + FieldSlack(row[3]) + FieldSlack(row[4])
  {
    hide EncodeField, FieldSlack;
    assert row[1..][1..] == row[2..] && row[2..][1..] == row[3..] && row[3..][1..] == row[4..] && row[4..][1..] == [];
    assert EncodeFields(row[4..]) == EncodeField(row[4]) + [];
    assert EncodeFields(row[3..]) == EncodeField(row[3]) + EncodeFields(row[4..]);
    assert EncodeFields(row[2..]) == EncodeField(row[2]) + EncodeFields(row[3..]);
    assert EncodeFields(row[1..]) == EncodeField(row[1]) + EncodeFields(row[2..]);
    assert Slack(row[4..]) == FieldSlack(row[4]);
    assert Slack(row[3..]) == FieldSlack(row[3]) + Slack(row[4..]);
    assert Slack(row[2..]) == FieldSlack(row[2]) + Slack(row[3..]);
    assert Slack(row[1..]) == FieldSlack(row[1]) + Slack(row[2..]);
  }

  /** What the decoder makes of bytes no encoder wrote: a number cut short is zero and leaves its bytes
      to be read as the next field's type; a text cut short is empty after its length; any byte but
      zero is true; and fields past the end of the bytes are not there. */
  lemma DecodeSamples()
    ensures DecodeRow([2, 0, 1, 5]) == [Integer(0), Other(5, 0)]
    ensures DecodeRow([1, 0, 4, 9, 0, 0, 0, 65]) == [Varchar([])]
    ensures DecodeRow([9, 0, 7, 2]) == [Boolean(true)]
    ensures DecodeRow([3]) == []
  {
    hide DecodeBody, DecodeFields;
    SmallCounts();
    BodySamples();
    var a: seq<Byte> := [1, 5];
    FieldsUnfold(2, a);
    assert a[1..] == [5] && a[1 + 0..] == [5];
    FieldsUnfold(1, [5]);
    assert [5][1..] == [];
    FieldsUnfold(0, []);
    assert [2, 0, 1, 5][2..] == a;
    var b: seq<Byte> := [4, 9, 0, 0, 0, 65];
    FieldsUnfold(1, b);
    assert b[1..] == [9, 0, 0, 0, 65] && b[1 + 4..] == [65];
    FieldsUnfold(0, [65]);
    assert [1, 0, 4, 9, 0, 0, 0, 65][2..] == b;
    var c: seq<Byte> := [7, 2];
    FieldsUnfold(9, c);
    assert c[1..] == [2] && c[1 + 1..] == [];
    FieldsUnfold(8, []);
    assert [9, 0, 7, 2][2..] == c;
  }

  lemma SmallCounts()
    ensures FromBytes([2, 0, 1, 5][..2]) == 2 && FromBytes([1, 0, 4, 9, 0, 0, 0, 65][..2]) == 1
    ensures FromBytes([9, 0, 7, 2][..2]) == 9
  {
    assert [2, 0, 1, 5][..2] == [2, 0] && [1, 0, 4, 9, 0, 0, 0, 65][..2] == [1, 0] && [9, 0, 7, 2][..2] == [9, 0];
    assert FromBytes([0]) == 0;
    assert [2, 0][1..] == [0] && [1, 0][1..] == [0] && [9, 0][1..] == [0];
  }

  lemma BodySamples()
    ensures DecodeBody(1, [5]) == (Integer(0), 0) && DecodeBody(5, []) == (Other(5, 0), 0)
    ensures DecodeBody(4, [9, 0, 0, 0, 65]) == (Varchar([]), 4)
    ensures DecodeBody(7, [2]) == (Boolean(true), 1)
  {
    assert [9, 0, 0, 0, 65][..4] == [9, 0, 0, 0];
    assert FromBytes([0]) == 0 && FromBytes([0, 0]) == 0 && FromBytes([0, 0, 0]) == 0;
    assert [9, 0, 0, 0][1..] == [0, 0, 0] && [0, 0, 0][1..] == [0, 0] && [0, 0][1..] == [0];
  }
}
