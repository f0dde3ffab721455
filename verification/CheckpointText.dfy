/** The text a checkpoint record carries, and the parser that recovers the active transactions from it. */
module CheckpointText {
  import opened Decimal

  datatype Parsed = Ids(ids: seq<nat>) | Throws

  const MAX_ID: nat := 0xFFFF_FFFF_FFFF_FFFF

  // ---------- Printing ----------

  function Joined(ids: seq<nat>): string {
    if ids == [] then ""
    else if |ids| == 1 then ToDecimal(ids[0])
    else ToDecimal(ids[0]) + "," + Joined(ids[1..])
  }

  function Text(full: bool, ids: seq<nat>): string {
    (if full then "FULL\n" else "INCR\n") + "ACTIVE:" + Joined(ids) + "\n" + "DIRTY:" + "\n"
  }

  lemma {:induction false} JoinedExtends(ids: seq<nat>, id: nat)
    requires ids != []
    ensures Joined(ids + [id]) == Joined(ids) + "," + ToDecimal(id)
  {
    if |ids| == 1 {
      assert (ids + [id])[1..] == [id];
    } else {
      JoinedExtends(ids[1..], id);
      assert (ids + [id])[1..] == ids[1..] + [id];
    }
  }

  /** The text as `writeCheckpointRecord` builds it, by appending. */
  method WriteText(full: bool, ids: seq<nat>) returns (data: string)
    ensures data == Text(full, ids)
  {
    if full {
      data := "FULL\n";
    } else {
      data := "INCR\n";
    }
    data := data + "ACTIVE:";
    ghost var head := data;
    for i := 0 to |ids|
      invariant data == head + Joined(ids[..i])
    {
      assert ids[..i + 1] == ids[..i] + [ids[i]];
      if i > 0 {
        JoinedExtends(ids[..i], ids[i]);
        data := data + ",";
      }
      data := data + ToDecimal(ids[i]);
    }
    assert ids[..|ids|] == ids;
    data := data + "\n";
    data := data + "DIRTY:";
    data := data + "\n";
  }

  // ---------- Parsing ----------

  /** Position of the first `c` at or after `from`, or the length of `s`. */
  function IndexOf(s: string, c: char, from: nat): (i: nat)
    requires from <= |s|
    ensures from <= i <= |s|
    ensures i < |s| ==> s[i] == c
    ensures forall k :: from <= k < i ==> s[k] != c
    decreases |s| - from
  {
    if from == |s| || s[from] == c then from else IndexOf(s, c, from + 1)
  }

  /** Position of the first occurrence of `word` at or after `from`, or the length of `s`. */
  function FindWord(s: string, word: string, from: nat): (i: nat)
    requires from <= |s|
    ensures from <= i <= |s|
    ensures i < |s| ==> word <= s[i..]
    ensures forall k :: from <= k < i ==> !(word <= s[k..])
    decreases |s| - from
  {
    if from == |s| || word <= s[from..] then from else FindWord(s, word, from + 1)
  }

  function DigitRun(s: string): (n: nat)
    ensures n <= |s| && forall i :: 0 <= i < n ==> IsDigit(s[i])
  {
    if s == [] || !IsDigit(s[0]) then 0 else 1 + DigitRun(s[1..])
  }

  /** What `isspace` accepts. */
  predicate IsBlank(c: char) {
    c == ' ' || 9 as char <= c <= 13 as char
  }

  function SkipBlanks(s: string): string {
    if s != [] && IsBlank(s[0]) then SkipBlanks(s[1..]) else s
  }

  /** `std::stoull`: blanks, a sign and digits, whatever follows; it throws without a digit or past
      64 bits, and a minus sign negates modulo 2^64. */
  function ParseNumber(s: string): Parsed {
    var t := SkipBlanks(s);
    var signed := t != [] && (t[0] == '+' || t[0] == '-');
    var digits := if signed then t[1..] else t;
    var k := DigitRun(digits);
    if k == 0 then Throws
    else
      var n := FromDecimal(digits[..k]);
      if n > MAX_ID then Throws
      else if signed && t[0] == '-' && n > 0 then Ids([MAX_ID + 1 - n])
      else Ids([n])
  }

  /** The comma loop over the list of ids. */
  function ParseIds(s: string): Parsed
    decreases |s|
  {
    if s == [] then Ids([])
    else
      var comma := IndexOf(s, ',', 0);
      var first := ParseNumber(s[..comma]);
      if first.Throws? then Throws
      else if comma == |s| then first
      else
        var rest := ParseIds(s[comma + 1..]);
        if rest.Throws? then Throws else Ids(first.ids + rest.ids)
  }

  /** The active transactions of a checkpoint text; none when the marker or its line end is missing. */
  function ParseText(data: string): Parsed {
    var pos := FindWord(data, "ACTIVE:", 0);
    if pos == |data| then Ids([])
    else
      var start := pos + 7;
      var end := IndexOf(data, '\n', start);
      if end == |data| then Ids([]) else ParseIds(data[start..end])
  }

  lemma {:induction false} DigitRunOfNumeral(s: string)
    requires forall i :: 0 <= i < |s| ==> IsDigit(s[i])
    ensures DigitRun(s) == |s|
  {
    if s != [] {
      DigitRunOfNumeral(s[1..]);
    }
  }

  lemma NumberReadsBack(id: nat)
    requires id <= MAX_ID
    ensures ParseNumber(ToDecimal(id)) == Ids([id])
  {
    var s := ToDecimal(id);
    assert IsDigit(s[0]) && SkipBlanks(s) == s;
    DigitRunOfNumeral(s);
    DecimalRoundTrip(id);
    assert s[..|s|] == s;
  }

  lemma {:induction false} IndexAfterPlain(s: string, c: char, from: nat, end: nat)
    requires from <= end <= |s| && (forall k :: from <= k < end ==> s[k] != c)
    requires end < |s| ==> s[end] == c
    ensures IndexOf(s, c, from) == end
    decreases end - from
  {
    if from < end {
      IndexAfterPlain(s, c, from + 1, end);
    }
  }

  lemma {:induction false} IdsReadBack(ids: seq<nat>)
    requires forall i :: 0 <= i < |ids| ==> ids[i] <= MAX_ID
    ensures ParseIds(Joined(ids)) == Ids(ids)
  {
    hide ToDecimal, ParseNumber;
    if ids != [] {
      var s, n := Joined(ids), |ToDecimal(ids[0])|;
      NumberReadsBack(ids[0]);
      assert s[..n] == ToDecimal(ids[0]);
      if |ids| > 1 {
        IdsReadBack(ids[1..]);
        assert s[n + 1..] == Joined(ids[1..]);
        assert ids == [ids[0]] + ids[1..];
      }
      IndexAfterPlain(s, ',', 0, n);
    }
  }

  lemma {:induction false} JoinedIsPlain(ids: seq<nat>)
    ensures forall i :: 0 <= i < |Joined(ids)| ==> IsDigit(Joined(ids)[i]) || Joined(ids)[i] == ','
  {
    hide ToDecimal;
    if |ids| > 1 {
      JoinedIsPlain(ids[1..]);
    }
  }

  lemma MarkerAt(full: bool, ids: seq<nat>)
    ensures FindWord(Text(full, ids), "ACTIVE:", 0) == 5
    ensures Text(full, ids)[12..] == Joined(ids) + "\nDIRTY:\n"
  {
    hide Joined;
    var data := Text(full, ids);
    assert data[5..] == "ACTIVE:" + (Joined(ids) + "\nDIRTY:\n");
    assert data[..5] == if full then "FULL\n" else "INCR\n";
    MarkerNotBefore(data, 5);
  }

  lemma {:induction false} MarkerNotBefore(data: string, n: nat)
    requires n < |data| && "ACTIVE:" <= data[n..] && forall i :: 0 <= i < n ==> data[i] != 'A'
    ensures FindWord(data, "ACTIVE:", 0) == n
  {
    MarkerFrom(data, n, 0);
  }

  lemma {:induction false} MarkerFrom(data: string, n: nat, from: nat)
    requires from <= n < |data| && "ACTIVE:" <= data[n..] && forall i :: 0 <= i < n ==> data[i] != 'A'
    ensures FindWord(data, "ACTIVE:", from) == n
    decreases n - from
  {
    if from < n {
      assert data[from..][0] != 'A';
      MarkerFrom(data, n, from + 1);
    }
  }

  /** Checkpoint text round trip: the parser recovers every list of transaction ids that was
      printed, the empty one included, in full and incremental checkpoints. */
  lemma TextRoundTrip(full: bool, ids: seq<nat>)
    requires forall i :: 0 <= i < |ids| ==> ids[i] <= MAX_ID
    ensures ParseText(Text(full, ids)) == Ids(ids)
  {
    hide Joined, ParseIds, FindWord;
    var data, list := Text(full, ids), Joined(ids);
    MarkerAt(full, ids);
    JoinedIsPlain(ids);
    var end := 12 + |list|;
    assert forall k :: 12 <= k < end ==> data[k] == data[12..][k - 12] == list[k - 12];
    assert data[end] == data[12..][end - 12] == '\n';
    IndexAfterPlain(data, '\n', 12, end);
    assert data[12..end] == list;
    IdsReadBack(ids);
  }

  function Prepend(ids: seq<nat>, rest: Parsed): Parsed {
    if rest.Throws? then Throws else Ids(ids + rest.ids)
  }

  lemma ParseIdsFrom(s: string, start: nat)
    requires start < |s|
    ensures
      var comma := IndexOf(s, ',', start);
      var first := ParseNumber(s[start..comma]);
      ParseIds(s[start..]) ==
        if first.Throws? then Throws
        else if comma == |s| then first
        else Prepend(first.ids, ParseIds(s[comma + 1..]))
  {
    hide ParseNumber, IndexOf;
    var tail, comma := s[start..], IndexOf(s, ',', start);
    IndexShifts(s, ',', start);
    var k := IndexOf(tail, ',', 0);
    assert tail[..k] == s[start..comma];
    if k < |tail| {
      assert tail[k + 1..] == s[comma + 1..];
      assert ParseIds(tail) == if ParseNumber(tail[..k]).Throws? then Throws
                               else Prepend(ParseNumber(tail[..k]).ids, ParseIds(tail[k + 1..]));
    } else {
      assert ParseIds(tail) == ParseNumber(tail[..k]);
    }
  }

  /** The comma loop, with its moving start. */
  method ReadIds(txs: string) returns (r: Parsed)
    ensures r == ParseIds(txs)
  {
    hide ParseNumber, ParseIds, IndexOf;
    var start := 0;
    var ids: seq<nat> := [];
    assert txs[0..] == txs;
    while start < |txs|
      invariant start <= |txs|
      invariant ParseIds(txs) == Prepend(ids, ParseIds(txs[start..]))
    {
      ParseIdsFrom(txs, start);
      var comma := IndexOf(txs, ',', start);
      var first := ParseNumber(txs[start..comma]);
      if first.Throws? {
        return Throws;
      }
      if comma == |txs| {
        return Ids(ids + first.ids);
      }
      assert forall x: seq<nat> :: ids + (first.ids + x) == (ids + first.ids) + x;
      ids := ids + first.ids;
      start := comma + 1;
    }
    NoMoreIds();
    assert txs[start..] == [] && ids + [] == ids;
    r := Ids(ids);
  }

  lemma NoMoreIds()
    ensures ParseIds([]) == Ids([])
  {}

  /** The parser of `findLastCheckpoint`. */
  method FindActive(data: string) returns (r: Parsed)
    ensures r == ParseText(data)
  {
    var pos := FindWord(data, "ACTIVE:", 0);
    if pos == |data| {
      return Ids([]);
    }
    pos := pos + 7;
    var end := IndexOf(data, '\n', pos);
    if end == |data| {
      return Ids([]);
    }
    r := ReadIds(data[pos..end]);
  }

  lemma {:induction false} IndexShifts(s: string, c: char, from: nat)
    requires from <= |s|
    ensures IndexOf(s[from..], c, 0) == IndexOf(s, c, from) - from
  {
    IndexAfterPlain(s[from..], c, 0, IndexOf(s, c, from) - from);
  }

  /** The three lines: the kind of checkpoint, the active transactions, and the dirty pages, of which
      none are listed. */
  lemma TextLines(full: bool, ids: seq<nat>)
    ensures full ==> Text(full, ids) == "FULL\n" + ("ACTIVE:" + Joined(ids) + "\nDIRTY:\n")
    ensures !full ==> Text(full, ids) == "INCR\n" + ("ACTIVE:" + Joined(ids) + "\nDIRTY:\n")
    ensures Text(full, ids)[..5] == if full then "FULL\n" else "INCR\n"
  {
    hide Joined;
    var head := if full then "FULL\n" else "INCR\n";
    var list := Joined(ids);
    assert "\n" + "DIRTY:" + "\n" == "\nDIRTY:\n";
    assert Text(full, ids) == head + ("ACTIVE:" + list + "\nDIRTY:\n");
  }

  lemma TextSample()
    ensures Text(true, [7, 120]) == "FULL\nACTIVE:7,120\nDIRTY:\n"
  {
    hide ToDecimal, Text;
    SampleNumbers();
    assert [7, 120][1..] == [120];
    assert Joined([120]) == "120";
    assert Joined([7, 120]) == "7,120";
    TextLines(true, [7, 120]);
  }

  lemma SampleNumbers()
    ensures ToDecimal(7) == "7" && ToDecimal(120) == "120"
  {
    assert ToDecimal(1) == "1";
    assert ToDecimal(12) == "12";
  }

  /** What the parser makes of other texts: blanks and a sign before a number are read, what follows
      its digits is not, a minus sign negates modulo 2^64, a final comma is ignored, and an entry
      without digits throws. */
  lemma ParseSamples()
    ensures ParseNumber(" +7x") == Ids([7]) && ParseNumber("-1") == Ids([0xFFFF_FFFF_FFFF_FFFF])
    ensures ParseNumber("x") == Throws && ParseNumber("") == Throws
    ensures ParseIds("7,") == Ids([7]) && ParseIds(",7") == Throws
    ensures ParseText("FULL") == Ids([]) && ParseText("ACTIVE:7") == Ids([])
  {
    hide *;
    NumberSamples();
    ListSamples();
    TextSamples();
  }

  lemma TextSamples()
    ensures ParseText("FULL") == Ids([]) && ParseText("ACTIVE:7") == Ids([])
  {
    hide ParseIds;
    assert FindWord("FULL", "ACTIVE:", 0) == 4 by {
      assert !("ACTIVE:" <= "FULL"[0..]) && !("ACTIVE:" <= "FULL"[1..]);
      assert !("ACTIVE:" <= "FULL"[2..]) && !("ACTIVE:" <= "FULL"[3..]);
    }
    assert "ACTIVE:7"[0..] == "ACTIVE:" + "7";
    assert FindWord("ACTIVE:7", "ACTIVE:", 0) == 0;
    assert IndexOf("ACTIVE:7", '\n', 7) == 8;
  }

  lemma NumberSamples()
    ensures ParseNumber(" +7x") == Ids([7]) && ParseNumber("-1") == Ids([0xFFFF_FFFF_FFFF_FFFF])
    ensures ParseNumber("x") == Throws && ParseNumber("") == Throws && ParseNumber("7") == Ids([7])
  {
    hide ParseNumber;
    SignedSample();
    NegativeSample();
    PlainSamples();
  }

  lemma SignedSample()
    ensures ParseNumber(" +7x") == Ids([7])
  {
    assert " +7x"[1..] == "+7x" && "+7x"[1..] == "7x" && "7x"[1..] == "x" && "7x"[..1] == "7";
    assert SkipBlanks("+7x") == "+7x";
    assert DigitRun("x") == 0 && DigitRun("7x") == 1;
    assert "7"[..0] == "" && FromDecimal("7") == 7;
  }

  lemma NegativeSample()
    ensures ParseNumber("-1") == Ids([0xFFFF_FFFF_FFFF_FFFF])
  {
    assert "-1"[1..] == "1" && "1"[1..] == "" && "1"[..1] == "1";
    assert DigitRun("1") == 1;
    assert "1"[..0] == "" && FromDecimal("1") == 1;
  }

  lemma PlainSamples()
    ensures ParseNumber("x") == Throws && ParseNumber("") == Throws && ParseNumber("7") == Ids([7])
  {
    assert "7"[1..] == "" && "7"[..1] == "7";
    assert DigitRun("x") == 0 && DigitRun("7") == 1;
    assert "7"[..0] == "" && FromDecimal("7") == 7;
  }

  lemma ListSamples()
    ensures ParseIds("7,") == Ids([7]) && ParseIds(",7") == Throws
  {
    hide ParseNumber;
    NumberSamples();
    assert IndexOf("7,", ',', 0) == 1 && "7,"[..1] == "7" && "7,"[2..] == "";
    assert ParseIds("") == Ids([]);
    assert IndexOf(",7", ',', 0) == 0 && ",7"[..0] == "";
  }
}
