/** The streaming Base64 codec against the group definition of section 4 of RFC 4648. */
module Base64 {
  import opened Bytes

  type Sextet = n: nat | n < 64

  /** The alphabet: A-Z, a-z, 0-9, +, /. */
  function Symbol(v: Sextet): (c: char)
    ensures c != '=' && c != 0 as char
  {
    if v < 26 then 'A' + v as char
    else if v < 52 then 'a' + (v - 26) as char
    else if v < 62 then '0' + (v - 52) as char
    else if v == 62 then '+' else '/'
  }

  /** The alphabet of table 1 of RFC 4648: capitals, small letters and digits in order, then + and /. */
  lemma Alphabet(v: Sextet)
    ensures Symbol(0) == 'A' && Symbol(25) == 'Z' && Symbol(26) == 'a' && Symbol(51) == 'z'
    ensures Symbol(52) == '0' && Symbol(61) == '9' && Symbol(62) == '+' && Symbol(63) == '/'
    ensures v < 61 && v != 25 && v != 51 ==> Symbol(v + 1) as int == Symbol(v) as int + 1
  {}

  lemma SymbolsAreDistinct(v: Sextet, w: Sextet)
    requires Symbol(v) == Symbol(w)
    ensures v == w
  {}

  // ---------- Section 4 of RFC 4648 ----------

  /** The four sextets of three bytes. */
  function First(a: Byte): Sextet { a / 4 }
  function Second(a: Byte, b: Byte): Sextet { a % 4 * 16 + b / 16 }
  function Third(b: Byte, c: Byte): Sextet { b % 16 * 4 + c / 64 }
  function Fourth(c: Byte): Sextet { c % 64 }

  /** Three bytes become four symbols; a final group of one or two bytes is padded with zero bits and '='. */
  function RfcEncode(data: seq<Byte>): string {
    if data == [] then ""
    else if |data| == 1 then [Symbol(First(data[0])), Symbol(Second(data[0], 0)), '=', '=']
    else if |data| == 2 then
      [Symbol(First(data[0])), Symbol(Second(data[0], data[1])), Symbol(Third(data[1], 0)), '=']
    else
      [Symbol(First(data[0])), Symbol(Second(data[0], data[1])),
       Symbol(Third(data[1], data[2])), Symbol(Fourth(data[2]))] + RfcEncode(data[3..])
  }

  /** The number of bytes in the last, incomplete group. */
  function Phase(n: nat): (p: nat)
    ensures p < 3
  {
    if n < 3 then n else Phase(n - 3)
  }

  lemma {:induction false} PhaseStep(n: nat)
    ensures Phase(n + 1) == if Phase(n) == 2 then 0 else Phase(n) + 1
  {
    if n >= 3 {
      PhaseStep(n - 3);
    }
  }

  function Groups(n: nat): nat {
    if n == 0 then 0 else if n < 3 then 1 else 1 + Groups(n - 3)
  }

  lemma {:induction false} GroupsIsCeiling(n: nat)
    ensures Groups(n) == (n + 2) / 3
  {
    if n >= 3 {
      GroupsIsCeiling(n - 3);
    }
  }

  lemma {:induction false} EncodedLength(data: seq<Byte>)
    ensures |RfcEncode(data)| == 4 * Groups(|data|)
  {
    hide Symbol, First, Second, Third, Fourth;
    if |data| >= 3 {
      EncodedLength(data[3..]);
    }
  }

  // ---------- The encoder ----------

  /** The symbols of the sextets complete after `data`, leftover bits excluded. */
  function Emitted(data: seq<Byte>): string {
    if data == [] then ""
    else if |data| == 1 then [Symbol(First(data[0]))]
    else if |data| == 2 then [Symbol(First(data[0])), Symbol(Second(data[0], data[1]))]
    else
      [Symbol(First(data[0])), Symbol(Second(data[0], data[1])),
       Symbol(Third(data[1], data[2])), Symbol(Fourth(data[2]))] + Emitted(data[3..])
  }

  /** What one more byte adds to the complete sextets. */
  function Added(data: seq<Byte>, b: Byte): string {
    if data == [] || Phase(|data|) == 0 then [Symbol(First(b))]
    else
      var last := data[|data| - 1];
      if Phase(|data|) == 1 then [Symbol(Second(last, b))] else [Symbol(Third(last, b)), Symbol(Fourth(b))]
  }

  lemma {:induction false} EmittedStep(data: seq<Byte>, b: Byte)
    ensures Emitted(data + [b]) == Emitted(data) + Added(data, b)
  {
    hide Symbol, First, Second, Third, Fourth;
    if |data| >= 3 {
      EmittedStep(data[3..], b);
      assert (data + [b])[3..] == data[3..] + [b];
    } else if |data| == 2 {
      assert (data + [b])[3..] == [];
    }
  }

  /** The final symbol for leftover bits, and the padding. */
  function Closing(data: seq<Byte>): string {
    if data == [] || Phase(|data|) == 0 then ""
    else if Phase(|data|) == 1 then [Symbol(Second(data[|data| - 1], 0)), '=', '=']
    else [Symbol(Third(data[|data| - 1], 0)), '=']
  }

  lemma {:induction false} RfcIsEmittedAndClosing(data: seq<Byte>)
    ensures RfcEncode(data) == Emitted(data) + Closing(data)
  {
    hide Symbol, First, Second, Third, Fourth;
    if |data| >= 3 {
      RfcIsEmittedAndClosing(data[3..]);
    }
  }

  /** The accumulator's low bits are the bits not yet emitted; higher bits may have wrapped away. */
  ghost predicate Keeps(temp: nat, data: seq<Byte>) {
    && (data != [] && Phase(|data|) == 1 ==> temp % 4 == data[|data| - 1] % 4)
    && (data != [] && Phase(|data|) == 2 ==> temp % 16 == data[|data| - 1] % 16)
  }

  /** `x` taken apart at a power of two. */
  lemma QuotientOf(x: int, d: int, q: int, r: int)
    requires (d == 4 || d == 16 || d == 64 || d == 256) && x == d * q + r && 0 <= r < d
    ensures x / d == q && x % d == r
  {
    if d == 4 {
      assert x / 4 == q;
    } else if d == 16 {
      assert x / 16 == q;
    } else if d == 64 {
      assert x / 64 == q;
    } else {
      assert x / 256 == q;
    }
  }

  lemma TopOfByte(k: int, b: Byte)
    ensures (256 * k + b) / 4 % 64 == b / 4 && (256 * k + b) % 64 == b % 64
    ensures (256 * k + b) % 16 == b % 16 && (256 * k + b) % 4 == b % 4
  {
    QuotientOf(256 * k + b, 4, 64 * k + b / 4, b % 4);
    QuotientOf(64 * k + b / 4, 64, k, b / 4);
    QuotientOf(256 * k + b, 64, 4 * k + b / 64, b % 64);
    QuotientOf(256 * k + b, 16, 16 * k + b / 16, b % 16);
  }

  lemma AcrossTwoBits(k: int, b: Byte)
    ensures (256 * k + b) / 16 % 64 == k % 4 * 16 + b / 16
  {
    QuotientOf(256 * k + b, 16, 16 * k + b / 16, b % 16);
    QuotientOf(16 * k + b / 16, 64, k / 4, k % 4 * 16 + b / 16);
  }

  lemma AcrossFourBits(k: int, b: Byte)
    ensures (256 * k + b) / 64 % 64 == k % 16 * 4 + b / 64
  {
    QuotientOf(256 * k + b, 64, 4 * k + b / 64, b % 64);
    QuotientOf(4 * k + b / 64, 64, k / 16, k % 16 * 4 + b / 64);
  }

  /** Shifting a byte into the 32-bit accumulator: what wraps away is a multiple of 2^24 of the old value. */
  lemma Wrap(before: nat, b: Byte) returns (k: int)
    ensures (before * 256 + b) % 0x1_0000_0000 == 256 * k + b
    ensures k % 16 == before % 16 && k % 4 == before % 4
  {
    var q := (before * 256 + b) / 0x1_0000_0000;
    k := before - q * 0x100_0000;
    QuotientOf(k, 16, before / 16 - q * 0x10_0000, before % 16);
    QuotientOf(k, 4, before / 4 - q * 0x40_0000, before % 4);
  }

  lemma Accumulate(before: nat, b: Byte)
    ensures var temp := (before * 256 + b) % 0x1_0000_0000;
      && temp / 4 % 64 == b / 4 && temp % 64 == b % 64 && temp % 16 == b % 16 && temp % 4 == b % 4
      && temp / 16 % 64 == before % 4 * 16 + b / 16
      && temp / 64 % 64 == before % 16 * 4 + b / 64
  {
    var k := Wrap(before, b);
    TopOfByte(k, b);
    AcrossTwoBits(k, b);
    AcrossFourBits(k, b);
  }

  function Pow2(n: nat): (p: nat)
    ensures p > 0
  {
    if n == 0 then 1 else 2 * Pow2(n - 1)
  }

  lemma SmallPowers()
    ensures Pow2(0) == 1 && Pow2(2) == 4 && Pow2(4) == 16 && Pow2(6) == 64
  {
    assert Pow2(4) == 4 * Pow2(2);
    assert Pow2(6) == 4 * Pow2(4);
  }

  /** The inner loop: emit sextets from the top while at least six bits are pending. */
  method Drain(temp: nat, pending: nat) returns (out: string, bits: nat)
    requires pending == 8 || pending == 10 || pending == 12
    ensures pending == 8 ==> bits == 2 && out == [Symbol(temp / 4 % 64)]
    ensures pending == 10 ==> bits == 4 && out == [Symbol(temp / 16 % 64)]
    ensures pending == 12 ==> bits == 0 && out == [Symbol(temp / 64 % 64), Symbol(temp % 64)]
  {
    hide Symbol;
    SmallPowers();
    out, bits := "", pending;
    while bits >= 6
      invariant bits == pending || bits == pending - 6 || (pending == 12 && bits == 0)
      invariant bits == pending ==> out == ""
      invariant bits == pending - 6 ==> out == [Symbol(temp / Pow2(bits) % 64)]
      invariant bits == pending - 12 ==> out == [Symbol(temp / 64 % 64), Symbol(temp % 64)]
    {
      bits := bits - 6;
      out := out + [Symbol(temp / Pow2(bits) % 64)];
    }
  }

  function LeftoverBits(n: nat): nat {
    2 * Phase(n)
  }

  /** The body of the encoder's loop. */
  method Absorb(data: seq<Byte>, i: nat, before: U32, pending: nat) returns (out: string, temp: U32, bits: nat)
    requires i < |data| && pending == LeftoverBits(i) && Keeps(before, data[..i])
    ensures bits == LeftoverBits(i + 1) && Keeps(temp, data[..i + 1])
    ensures Emitted(data[..i]) + out == Emitted(data[..i + 1])
  {
    hide Symbol, Emitted;
    var b := data[i];
    temp := (before * 256 + b) % 0x1_0000_0000;
    out, bits := Drain(temp, pending + 8);
    PhaseStep(i);
    Accumulate(before, b);
    EmittedStep(data[..i], b);
    assert data[..i + 1] == data[..i] + [b];
    assert out == Added(data[..i], b);
  }

  /** The encoder with its 32-bit accumulator equals the RFC definition: bits lost to
      wrap-around are never bits still to be emitted. */
  method Encode(data: seq<Byte>) returns (result: string)
    ensures result == RfcEncode(data)
    ensures |result| == (|data| + 2) / 3 * 4
  {
    hide Symbol, RfcEncode, Emitted, Phase, Second, Third, Groups, Keeps;
    result := "";
    var temp: U32, bits := 0, 0;
    EmittedNothing();
    for i := 0 to |data|
      invariant bits == LeftoverBits(i) && Keeps(temp, data[..i])
      invariant result == Emitted(data[..i])
    {
      var out;
      out, temp, bits := Absorb(data, i, temp, bits);
      result := result + out;
    }
    assert data[..|data|] == data;
    if bits > 0 {
      LeftoverSymbol(data, temp);
      result := result + [Symbol(temp * (if bits == 2 then 16 else 4) % 0x1_0000_0000 % 64)];
    }
    RfcIsEmittedAndClosing(data);
    EncodedLength(data);
    GroupsIsCeiling(|data|);
    ghost var missing := ClosingPadding(data);
    while |result| % 4 != 0
      invariant missing <= 2 && |result| + missing == 4 * Groups(|data|)
      invariant result + Padding(missing) == RfcEncode(data)
      decreases missing
    {
      assert result + Padding(missing) == (result + "=") + Padding(missing - 1);
      result := result + "=";
      missing := missing - 1;
    }
  }

  lemma EmittedNothing()
    ensures Emitted([]) == "" && LeftoverBits(0) == 0 && Keeps(0, [])
  {}

  ghost function Padding(n: nat): string {
    if n == 0 then "" else "=" + Padding(n - 1)
  }

  /** The number of '=' that close the encoding. */
  lemma ClosingPadding(data: seq<Byte>) returns (n: nat)
    ensures n <= 2 && n == (if LeftoverBits(|data|) == 0 then 0 else if LeftoverBits(|data|) == 2 then 2 else 1)
    ensures Closing(data) == (if data == [] || n == 0 then ""
      else [Symbol(if n == 2 then Second(data[|data| - 1], 0) else Third(data[|data| - 1], 0))] + Padding(n))
    ensures data == [] ==> n == 0
  {
    hide Symbol, Second, Third;
    n := if Phase(|data|) == 0 then 0 else if Phase(|data|) == 1 then 2 else 1;
    assert Padding(2) == "=" + Padding(1) == "==";
  }

  lemma LeftoverSymbol(data: seq<Byte>, temp: nat)
    requires Keeps(temp, data) && LeftoverBits(|data|) > 0
    ensures data != []
    ensures LeftoverBits(|data|) == 2 ==> temp * 16 % 0x1_0000_0000 % 64 == Second(data[|data| - 1], 0)
    ensures LeftoverBits(|data|) == 4 ==> temp * 4 % 0x1_0000_0000 % 64 == Third(data[|data| - 1], 0)
  {
    LowBits(temp);
  }

  lemma LowBits(temp: nat)
    ensures temp * 16 % 0x1_0000_0000 % 64 == temp % 4 * 16
    ensures temp * 4 % 0x1_0000_0000 % 64 == temp % 16 * 4
  {
    var p, q := temp * 16 / 0x1_0000_0000, temp * 4 / 0x1_0000_0000;
    QuotientOf(temp * 16 % 0x1_0000_0000, 64, temp / 4 - p * 0x400_0000, temp % 4 * 16);
    QuotientOf(temp * 4 % 0x1_0000_0000, 64, temp / 16 - q * 0x400_0000, temp % 16 * 4);
  }

  // ---------- The decoder ----------

  const NUL_VALUE: nat := 64
  const NOT_FOUND: nat := 65

  /** `strchr` on the alphabet: the position of the symbol. The zero character is found at the
      terminator, position 64. */
  function Lookup(c: char, from: nat): (v: nat)
    requires from <= 64
    ensures v <= NOT_FOUND && (v < 64 ==> Symbol(v) == c)
    ensures v == NUL_VALUE ==> c == 0 as char
    decreases 64 - from
  {
    if from == 64 then (if c == 0 as char then NUL_VALUE else NOT_FOUND)
    else if Symbol(from) == c then from else Lookup(c, from + 1)
  }

  lemma {:induction false} LookupFinds(v: Sextet, from: nat)
    requires from <= v
    ensures Lookup(Symbol(v), from) == v
    decreases v - from
  {
    if from < v {
      if Symbol(from) == Symbol(v) {
        SymbolsAreDistinct(from, v);
      }
      LookupFinds(v, from + 1);
    }
  }

  /** The values of the symbols before the first '='; characters outside the alphabet are skipped. */
  function Values(str: string): seq<Sextet> {
    if str == [] || str[0] == '=' then []
    else (if Lookup(str[0], 0) < 64 then [Lookup(str[0], 0)] else []) + Values(str[1..])
  }

  /** The bytes of complete groups of eight bits. */
  function FirstByte(v: Sextet, w: Sextet): Byte { v * 4 + w / 16 }
  function SecondByte(v: Sextet, w: Sextet): Byte { v % 16 * 16 + w / 4 }
  function ThirdByte(v: Sextet, w: Sextet): Byte { v % 4 * 64 + w }

  function BytesOf(vs: seq<Sextet>): seq<Byte> {
    if |vs| < 2 then []
    else if |vs| == 2 then [FirstByte(vs[0], vs[1])]
    else if |vs| == 3 then [FirstByte(vs[0], vs[1]), SecondByte(vs[1], vs[2])]
    else [FirstByte(vs[0], vs[1]), SecondByte(vs[1], vs[2]), ThirdByte(vs[2], vs[3])] + BytesOf(vs[4..])
  }

  function Quarter(n: nat): (p: nat)
    ensures p < 4
  {
    if n < 4 then n else Quarter(n - 4)
  }

  lemma {:induction false} QuarterStep(n: nat)
    ensures Quarter(n + 1) == if Quarter(n) == 3 then 0 else Quarter(n) + 1
  {
    if n >= 4 {
      QuarterStep(n - 4);
    }
  }

  /** The byte completed by one more sextet, if any. */
  function Completed(vs: seq<Sextet>, w: Sextet): seq<Byte> {
    if vs == [] || Quarter(|vs|) == 0 then []
    else
      var v := vs[|vs| - 1];
      [if Quarter(|vs|) == 1 then FirstByte(v, w) else if Quarter(|vs|) == 2 then SecondByte(v, w) else ThirdByte(v, w)]
  }

  lemma {:induction false} BytesOfStep(vs: seq<Sextet>, w: Sextet)
    ensures BytesOf(vs + [w]) == BytesOf(vs) + Completed(vs, w)
  {
    hide FirstByte, SecondByte, ThirdByte;
    if |vs| >= 4 {
      BytesOfStep(vs[4..], w);
      assert (vs + [w])[4..] == vs[4..] + [w];
    } else if |vs| == 3 {
      assert (vs + [w])[4..] == [];
    }
  }

  /** The low bits of the accumulator are the bits of the unfinished byte. */
  ghost predicate KeepsBits(temp: nat, vs: seq<Sextet>) {
    vs != [] ==>
      var v := vs[|vs| - 1];
      && (Quarter(|vs|) == 1 ==> temp % 64 == v)
      && (Quarter(|vs|) == 2 ==> temp % 16 == v % 16)
      && (Quarter(|vs|) == 3 ==> temp % 4 == v % 4)
  }

  function PendingBits(n: nat): nat {
    var q := Quarter(n);
    if q == 0 then 0 else 8 - 2 * q
  }

  lemma WrapSextet(before: nat, v: Sextet) returns (k: int)
    ensures (before * 64 + v) % 0x1_0000_0000 == 64 * k + v
    ensures k % 64 == before % 64 && k % 16 == before % 16 && k % 4 == before % 4
  {
    var q := (before * 64 + v) / 0x1_0000_0000;
    k := before - q * 0x400_0000;
    QuotientOf(k, 64, before / 64 - q * 0x10_0000, before % 64);
    QuotientOf(k, 16, before / 16 - q * 0x40_0000, before % 16);
    QuotientOf(k, 4, before / 4 - q * 0x100_0000, before % 4);
  }

  lemma LowSextet(k: int, v: Sextet)
    ensures (64 * k + v) % 64 == v && (64 * k + v) % 16 == v % 16 && (64 * k + v) % 4 == v % 4
  {
    QuotientOf(64 * k + v, 64, k, v);
    QuotientOf(64 * k + v, 16, 4 * k + v / 16, v % 16);
    QuotientOf(64 * k + v, 4, 16 * k + v / 4, v % 4);
  }

  lemma ByteAcross(k: int, v: Sextet)
    ensures (64 * k + v) / 16 % 256 == k % 64 * 4 + v / 16
    ensures (64 * k + v) / 4 % 256 == k % 16 * 16 + v / 4
    ensures (64 * k + v) % 256 == k % 4 * 64 + v
  {
    QuotientOf(64 * k + v, 16, 4 * k + v / 16, v % 16);
    QuotientOf(4 * k + v / 16, 256, k / 64, k % 64 * 4 + v / 16);
    QuotientOf(64 * k + v, 4, 16 * k + v / 4, v % 4);
    QuotientOf(16 * k + v / 4, 256, k / 16, k % 16 * 16 + v / 4);
    QuotientOf(64 * k + v, 256, k / 4, k % 4 * 64 + v);
  }

  /** `temp << 6 | value`. The zero character has the value 64, which overlaps the shifted bits. */
  function Shifted(temp: U32, v: nat): U32
    requires v <= NUL_VALUE
  {
    (if v == NUL_VALUE && temp % 2 == 1 then temp * 64 else temp * 64 + v) % 0x1_0000_0000
  }

  /** The byte that leaves the accumulator with `bits` pending bits, if eight are there. */
  function Output(temp: nat, bits: nat): seq<Byte> {
    if bits >= 8 then [temp / Pow2(bits - 8) % 256] else []
  }

  lemma SymbolStep(vs: seq<Sextet>, v: Sextet, before: U32)
    requires KeepsBits(before, vs)
    ensures
      var temp, bits := Shifted(before, v), PendingBits(|vs|) + 6;
      && KeepsBits(temp, vs + [v])
      && Output(temp, bits) == Completed(vs, v)
      && PendingBits(|vs| + 1) == if bits >= 8 then bits - 8 else bits
  {
    SmallPowers();
    QuarterStep(|vs|);
    var k := WrapSextet(before, v);
    LowSextet(k, v);
    ByteAcross(k, v);
  }

  /** `n | 1`. */
  function WithLowBit(n: nat): (m: nat)
    ensures n < 64 ==> m < 64
    ensures n < 0x1_0000_0000 ==> m < 0x1_0000_0000
  {
    n / 2 * 2 + 1
  }

  /** The last sextet with its low bit set, unless all its bits are out already. */
  function Touched(vs: seq<Sextet>): (r: seq<Sextet>)
    ensures |r| == |vs|
  {
    if vs == [] || Quarter(|vs|) == 0 then vs else vs[|vs| - 1 := WithLowBit(vs[|vs| - 1])]
  }

  /** The sextets the decoder reads, `vs` being read already. Characters outside the alphabet are
      skipped, the first '=' ends the reading, and a zero character counts as a zero sextet that
      sets the low bit of the sextet before it. */
  function Read(vs: seq<Sextet>, str: string): seq<Sextet>
    decreases str
  {
    if str == [] || str[0] == '=' then vs
    else
      var v := Lookup(str[0], 0);
      Read(if v == NOT_FOUND then vs else if v == NUL_VALUE then Touched(vs) + [0] else vs + [v], str[1..])
  }

  /** Without zero characters these are the values of the alphabet symbols before the first '='. */
  lemma {:induction false} ReadIsValues(vs: seq<Sextet>, str: string)
    requires 0 as char !in str
    ensures Read(vs, str) == vs + Values(str)
    decreases str
  {
    hide Lookup, Touched;
    if str != [] && str[0] != '=' {
      ValuesStep(str);
      var v := Lookup(str[0], 0);
      if v == NOT_FOUND {
        ReadIsValues(vs, str[1..]);
      } else {
        ReadIsValues(vs + [v], str[1..]);
        assert vs + ([v] + Values(str[1..])) == (vs + [v]) + Values(str[1..]);
      }
    }
  }

  lemma {:induction false} TouchedTail(vs: seq<Sextet>)
    requires |vs| >= 4
    ensures Touched(vs)[4..] == Touched(vs[4..]) && Touched(vs)[..4] == vs[..4]
  {
    assert Quarter(|vs|) == Quarter(|vs| - 4);
  }

  /** The bit is in no byte that is complete. */
  lemma {:induction false} TouchedKeepsBytes(vs: seq<Sextet>)
    ensures BytesOf(Touched(vs)) == BytesOf(vs)
  {
    hide Touched;
    if |vs| >= 4 {
      TouchedKeepsBytes(vs[4..]);
      TouchedTail(vs);
      var ws := Touched(vs);
      assert ws[0] == ws[..4][0] && ws[1] == ws[..4][1] && ws[2] == ws[..4][2] && ws[3] == ws[..4][3];
    } else {
      TouchedFew(vs);
    }
  }

  lemma TouchedFew(vs: seq<Sextet>)
    requires |vs| < 4
    ensures BytesOf(Touched(vs)) == BytesOf(vs)
  {
    hide FirstByte, SecondByte, ThirdByte, BytesOf, WithLowBit;
    FewBytes(vs);
    FewBytes(Touched(vs));
    if |vs| == 2 {
      LowBitIsLater(vs[0], vs[1]);
    } else if |vs| == 3 {
      LowBitIsLater(vs[1], vs[2]);
    }
  }

  lemma FewBytes(vs: seq<Sextet>)
    requires |vs| < 4
    ensures |vs| < 2 ==> BytesOf(vs) == []
    ensures |vs| == 2 ==> BytesOf(vs) == [FirstByte(vs[0], vs[1])]
    ensures |vs| == 3 ==> BytesOf(vs) == [FirstByte(vs[0], vs[1]), SecondByte(vs[1], vs[2])]
  {}

  lemma LowBitIsLater(w: Sextet, v: Sextet)
    ensures FirstByte(w, WithLowBit(v)) == FirstByte(w, v) && SecondByte(w, WithLowBit(v)) == SecondByte(w, v)
  {
    LowBit(v);
  }

  lemma NulShifts(before: U32)
    ensures WithLowBit(before) < 0x1_0000_0000
    ensures Shifted(before, NUL_VALUE) == Shifted(WithLowBit(before), 0)
  {}

  lemma NulKeepsBits(vs: seq<Sextet>, before: U32)
    requires KeepsBits(before, vs)
    ensures KeepsBits(WithLowBit(before), Touched(vs))
  {
    if vs != [] && Quarter(|vs|) != 0 {
      LowBitSet(before, vs[|vs| - 1]);
    }
  }

  /** Setting the low bit on both sides keeps agreement on the low bits. */
  lemma LowBitSet(a: nat, v: Sextet)
    ensures a % 64 == v ==> WithLowBit(a) % 64 == WithLowBit(v)
    ensures a % 16 == v % 16 ==> WithLowBit(a) % 16 == WithLowBit(v) % 16
    ensures a % 4 == v % 4 ==> WithLowBit(a) % 4 == WithLowBit(v) % 4
  {
    LowBit(a);
    LowBit(v);
  }

  lemma LowBit(a: nat)
    ensures WithLowBit(a) % 64 == a % 64 / 2 * 2 + 1 && WithLowBit(a) / 64 == a / 64
    ensures WithLowBit(a) % 16 == a % 16 / 2 * 2 + 1 && WithLowBit(a) / 16 == a / 16
    ensures WithLowBit(a) % 4 == a % 4 / 2 * 2 + 1 && WithLowBit(a) / 4 == a / 4
  {
    LowBitIn(a, 64, a / 64, a % 64);
    LowBitIn(a, 16, a / 16, a % 16);
    LowBitIn(a, 4, a / 4, a % 4);
  }

  lemma LowBitIn(a: nat, m: nat, q: nat, r: nat)
    requires m == 64 || m == 16 || m == 4
    requires a == m * q + r && r < m
    ensures WithLowBit(a) / m == q && WithLowBit(a) % m == r / 2 * 2 + 1
  {
    if m == 64 {
      assert a / 2 == 32 * q + r / 2;
    } else if m == 16 {
      assert a / 2 == 8 * q + r / 2;
    } else {
      assert a / 2 == 2 * q + r / 2;
    }
    assert r / 2 * 2 + 1 < m;
    QuotientOf(WithLowBit(a), m, q, r / 2 * 2 + 1);
  }

  /** One character that is looked up: a symbol, or the zero character. */
  lemma ReadStep(vs: seq<Sextet>, v: nat, before: U32) returns (ws: seq<Sextet>)
    requires KeepsBits(before, vs) && v <= NUL_VALUE
    ensures ws == if v == NUL_VALUE then Touched(vs) + [0] else vs + [v]
    ensures
      var temp, bits := Shifted(before, v), PendingBits(|vs|) + 6;
      && KeepsBits(temp, ws)
      && BytesOf(ws) == BytesOf(vs) + Output(temp, bits)
      && PendingBits(|ws|) == if bits >= 8 then bits - 8 else bits
  {
    hide KeepsBits, PendingBits, BytesOf, Completed, Touched, Output, Shifted;
    if v == NUL_VALUE {
      NulShifts(before);
      NulKeepsBits(vs, before);
      TouchedKeepsBytes(vs);
      SymbolStep(Touched(vs), 0, WithLowBit(before));
      BytesOfStep(Touched(vs), 0);
      ws := Touched(vs) + [0];
    } else {
      SymbolStep(vs, v, before);
      BytesOfStep(vs, v);
      ws := vs + [v];
    }
  }

  /** On every string, the decoder yields the bytes of the sextets it reads; without zero characters
      those are the alphabet symbols before the first '='. */
  method Decode(str: string) returns (result: seq<Byte>)
    ensures result == BytesOf(Read([], str))
    ensures 0 as char !in str ==> result == BytesOf(Values(str))
  {
    hide Values, Read, BytesOf, PendingBits, Lookup, KeepsBits, Completed, Touched, Shifted, Output;
    result := [];
    var temp: U32, bits := 0, 0;
    ghost var vs: seq<Sextet> := [];
    NothingRead();
    if 0 as char !in str {
      ReadIsValues([], str);
      assert [] + Values(str) == Values(str);
    }
    assert str[0..] == str;
    for i := 0 to |str|
      invariant Read(vs, str[i..]) == Read([], str)
      invariant bits == PendingBits(|vs|) && KeepsBits(temp, vs) && result == BytesOf(vs)
    {
      ReadUnfolds(vs, str[i..]);
      assert str[i..][1..] == str[i + 1..];
      if str[i] == '=' {
        return;
      }
      var v := Lookup(str[i], 0);
      if v != NOT_FOUND {
        vs := ReadStep(vs, v, temp);
        temp := Shifted(temp, v);
        bits := bits + 6;
        result := result + Output(temp, bits);
        if bits >= 8 {
          bits := bits - 8;
        }
      }
    }
    ReadUnfolds(vs, str[|str|..]);
  }

  lemma ReadUnfolds(vs: seq<Sextet>, str: string)
    ensures str == [] || str[0] == '=' ==> Read(vs, str) == vs
    ensures str != [] && str[0] != '=' ==>
      var v := Lookup(str[0], 0);
      Read(vs, str) ==
        Read(if v == NOT_FOUND then vs else if v == NUL_VALUE then Touched(vs) + [0] else vs + [v], str[1..])
  {}

  lemma NothingRead()
    ensures Values([]) == [] && BytesOf([]) == [] && PendingBits(0) == 0 && KeepsBits(0, [])
  {}

  lemma ValuesStep(str: string)
    requires str != []
    ensures str[0] == '=' ==> Values(str) == []
    ensures str[0] != '=' ==>
      Values(str) == (if Lookup(str[0], 0) < 64 then [Lookup(str[0], 0)] else []) + Values(str[1..])
    ensures Lookup(str[0], 0) == NUL_VALUE ==> str[0] == 0 as char
  {}

  // ---------- Round trip ----------

  lemma GroupReadsBack(a: Byte, b: Byte, c: Byte)
    ensures FirstByte(First(a), Second(a, b)) == a
    ensures SecondByte(Second(a, b), Third(b, c)) == b
    ensures ThirdByte(Third(b, c), Fourth(c)) == c
  {}

  lemma SymbolValues(v: Sextet, tail: string)
    ensures Values([Symbol(v)] + tail) == [v] + Values(tail)
  {
    LookupFinds(v, 0);
    assert ([Symbol(v)] + tail)[1..] == tail;
  }

  lemma FourValues(p: Sextet, q: Sextet, r: Sextet, t: Sextet, tail: string)
    ensures Values([Symbol(p), Symbol(q), Symbol(r), Symbol(t)] + tail) == [p, q, r, t] + Values(tail)
  {
    hide Values, Symbol;
    SymbolValues(t, tail);
    SymbolValues(r, [Symbol(t)] + tail);
    SymbolValues(q, [Symbol(r)] + ([Symbol(t)] + tail));
    SymbolValues(p, [Symbol(q)] + ([Symbol(r)] + ([Symbol(t)] + tail)));
    assert [Symbol(p), Symbol(q), Symbol(r), Symbol(t)] + tail
        == [Symbol(p)] + ([Symbol(q)] + ([Symbol(r)] + ([Symbol(t)] + tail)));
  }

  /** Decoding inverts encoding, for every byte sequence. */
  lemma {:induction false} DecodeInvertsEncode(data: seq<Byte>)
    ensures BytesOf(Values(RfcEncode(data))) == data
    ensures 0 as char !in RfcEncode(data)
  {
    hide Symbol, Values, First, Second, Third, Fourth, FirstByte, SecondByte, ThirdByte;
    if data == [] {
      NothingRead();
    } else if |data| == 1 {
      var a := data[0];
      LastGroupValues(First(a), Second(a, 0), "==");
      assert RfcEncode(data) == [Symbol(First(a)), Symbol(Second(a, 0))] + "==";
      GroupReadsBack(a, 0, 0);
    } else if |data| == 2 {
      var a, b := data[0], data[1];
      LastGroupValues(Second(a, b), Third(b, 0), "=");
      SymbolValues(First(a), [Symbol(Second(a, b)), Symbol(Third(b, 0))] + "=");
      assert RfcEncode(data) == [Symbol(First(a))] + ([Symbol(Second(a, b)), Symbol(Third(b, 0))] + "=");
      GroupReadsBack(a, b, 0);
    } else {
      var a, b, c := data[0], data[1], data[2];
      DecodeInvertsEncode(data[3..]);
      FourValues(First(a), Second(a, b), Third(b, c), Fourth(c), RfcEncode(data[3..]));
      GroupReadsBack(a, b, c);
      var rest := Values(RfcEncode(data[3..]));
      assert ([First(a), Second(a, b), Third(b, c), Fourth(c)] + rest)[4..] == rest;
      assert data == [a, b, c] + data[3..];
    }
  }

  lemma LastGroupValues(p: Sextet, q: Sextet, pad: string)
    requires pad == "=" || pad == "=="
    ensures Values([Symbol(p), Symbol(q)] + pad) == [p, q]
  {
    hide Values, Symbol;
    ValuesStep(pad);
    SymbolValues(q, pad);
    SymbolValues(p, [Symbol(q)] + pad);
    assert [Symbol(p), Symbol(q)] + pad == [Symbol(p)] + ([Symbol(q)] + pad);
  }

  /** Test vectors of section 10 of RFC 4648: "f", "fo" and "foobar". */
  lemma RfcVectors()
    ensures RfcEncode([102]) == "Zg==" && RfcEncode([102, 111]) == "Zm8="
    ensures RfcEncode([102, 111, 111, 98, 97, 114]) == "Zm9vYmFy"
  {
    var six: seq<Byte> := [102, 111, 111, 98, 97, 114];
    assert six[3..] == [98, 97, 114];
    assert six[3..][3..] == [];
    assert RfcEncode(six[3..]) == "YmFy";
  }

  /** A character outside the alphabet, wherever it stands, is as if it were not there. */
  lemma {:induction false} OthersAreSkipped(before: string, c: char, after: string)
    requires (forall v: Sextet :: Symbol(v) != c) && c != '=' && c != 0 as char
    ensures Values(before + [c] + after) == Values(before + after)
    decreases before
  {
    hide Symbol;
    var all := before + [c] + after;
    if before == [] {
      assert all[1..] == after && before + after == after;
    } else {
      OthersAreSkipped(before[1..], c, after);
      assert all[1..] == before[1..] + [c] + after && (before + after)[1..] == before[1..] + after;
    }
  }

  /** Nothing after the first '=' is read. */
  lemma {:induction false} PaddingEnds(before: string, after: string)
    ensures Values(before + "=" + after) == Values(before)
    decreases before
  {
    hide Symbol;
    var all := before + "=" + after;
    if before != [] {
      PaddingEnds(before[1..], after);
      assert all[1..] == before[1..] + "=" + after;
    }
  }
}
