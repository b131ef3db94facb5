/** The device's formatter for received messages. A message is cut into
    13-character lines; a line is a status character and six two-digit
    pairs, printed as `<status>: x AA.BB y CC.DD z EE.FF` followed by a
    newline. The digits are not checked: each pair is computed by character
    arithmetic and printed with `%02d`, whatever its value. */
module DataFormatter {
  import opened Text
  import opened Numbers

  /** The length of one input line. */
  const LINE_LENGTH: nat := 13

  /** The length of the line printed for thirteen digits and a status. */
  const OUTPUT_LENGTH: nat := 27

  /** `(c1 - '0') * 10 + (c2 - '0')` on character codes. */
  function Pair(c1: char, c2: char): (v: int)
    ensures IsDigit(c1) && IsDigit(c2) ==> 0 <= v < 100 && v == DigitValue(c1) * 10 + DigitValue(c2)
  {
    (c1 as int - '0' as int) * 10 + (c2 as int - '0' as int)
  }

  /** `printf("%02d")`: at least two characters, zero-padded on the left; a
      negative value is printed with its sign, which counts towards the
      width. */
  function Int02(v: int): (r: seq<char>)
    ensures v >= 0 ==> |r| >= 2 && AllDigits(r) && DigitsValue(r) == v
    ensures v < 0 ==> |r| >= 2 && r[0] == '-' && AllDigits(r[1..]) && DigitsValue(r[1..]) == -v
  {
    if v >= 0 then
      var ds := NatStr(v);
      NatStrValue(v);
      if |ds| < 2 then LeadingZeros(2 - |ds|, ds); PadLeft(ds, 2) else PadLeft(ds, 2)
    else
      NatStrValue(-v);
      assert ("-" + NatStr(-v))[1..] == NatStr(-v);
      "-" + NatStr(-v)
  }

  /** `format_data_line`: nothing for a line whose C string is not 13
      characters long, otherwise the printed line. */
  function FormatDataLine(line: seq<char>): (r: Option<seq<char>>)
    ensures r.Some? <==> |CStr(line)| == LINE_LENGTH
  {
    var t := CStr(line);
    if |t| != LINE_LENGTH then None
    else
      Some([t[0]] + ": x " + Int02(Pair(t[1], t[2])) + "." + Int02(Pair(t[3], t[4]))
        + " y " + Int02(Pair(t[5], t[6])) + "." + Int02(Pair(t[7], t[8]))
        + " z " + Int02(Pair(t[9], t[10])) + "." + Int02(Pair(t[11], t[12])) + "\n")
  }

  /** A line of a status character and twelve digits. */
  predicate DigitLine(line: seq<char>) {
    |line| == LINE_LENGTH && NUL !in line && AllDigits(line[1..])
  }

  /** Two digits are printed as themselves. */
  lemma PairVerbatim(c1: char, c2: char)
    requires IsDigit(c1) && IsDigit(c2)
    ensures Int02(Pair(c1, c2)) == [c1, c2]
  {
    var v := Pair(c1, c2);
    if v < 10 {
      assert c1 == '0';
      assert NatStr(v) == [DigitChar(v)];
      assert DigitChar(v) == c2;
    } else {
      assert NatStr(v) == NatStr(v / 10) + [DigitChar(v % 10)];
      assert v / 10 == DigitValue(c1) && v % 10 == DigitValue(c2);
      assert NatStr(v / 10) == [DigitChar(v / 10)];
    }
  }

  /** The printed line of a digit line: its characters appear verbatim,
      in order, between fixed separators. */
  function Layout(t: seq<char>): (r: seq<char>)
    requires |t| == LINE_LENGTH
    ensures |r| == OUTPUT_LENGTH
  {
    [t[0], ':', ' ', 'x', ' ', t[1], t[2], '.', t[3], t[4],
     ' ', 'y', ' ', t[5], t[6], '.', t[7], t[8],
     ' ', 'z', ' ', t[9], t[10], '.', t[11], t[12], '\n']
  }

  /** For a digit line the printed line is exactly its layout, 27
      characters long. */
  lemma FormatDigits(line: seq<char>)
    requires DigitLine(line)
    ensures FormatDataLine(line) == Some(Layout(line))
  {
    CStrOfPlain(line);
    var t := line;
    assert forall i :: 1 <= i < LINE_LENGTH ==> IsDigit(t[i]) by {
      assert forall i :: 1 <= i < LINE_LENGTH ==> t[i] == t[1..][i - 1];
    }
    PairVerbatim(t[1], t[2]);
    PairVerbatim(t[3], t[4]);
    PairVerbatim(t[5], t[6]);
    PairVerbatim(t[7], t[8]);
    PairVerbatim(t[9], t[10]);
    PairVerbatim(t[11], t[12]);
    FormatIs(line, [t[1], t[2]], [t[3], t[4]], [t[5], t[6]], [t[7], t[8]], [t[9], t[10]], [t[11], t[12]]);
    LayoutOf(t);
  }

  lemma FormatIs(line: seq<char>, p1: seq<char>, p2: seq<char>, p3: seq<char>, p4: seq<char>, p5: seq<char>, p6: seq<char>)
    requires |CStr(line)| == LINE_LENGTH
    requires var t := CStr(line);
             && p1 == Int02(Pair(t[1], t[2])) && p2 == Int02(Pair(t[3], t[4]))
             && p3 == Int02(Pair(t[5], t[6])) && p4 == Int02(Pair(t[7], t[8]))
             && p5 == Int02(Pair(t[9], t[10])) && p6 == Int02(Pair(t[11], t[12]))
    ensures FormatDataLine(line) == Some([CStr(line)[0]] + ": x " + p1 + "." + p2 + " y " + p3 + "." + p4 + " z " + p5 + "." + p6 + "\n")
  {
  }

  lemma LayoutOf(t: seq<char>)
    requires |t| == LINE_LENGTH
    ensures [t[0]] + ": x " + [t[1], t[2]] + "." + [t[3], t[4]] + " y " + [t[5], t[6]] + "." + [t[7], t[8]]
            + " z " + [t[9], t[10]] + "." + [t[11], t[12]] + "\n" == Layout(t)
  {
  }

  /** The inverse of the layout: the status and the twelve digits read back
      from their fixed positions. */
  function Unformat(out: seq<char>): (line: seq<char>)
    requires |out| == OUTPUT_LENGTH
    ensures |line| == LINE_LENGTH
  {
    [out[0], out[5], out[6], out[8], out[9], out[13], out[14], out[16], out[17], out[21], out[22], out[24], out[25]]
  }

  lemma UnformatLayout(t: seq<char>)
    requires |t| == LINE_LENGTH
    ensures Unformat(Layout(t)) == t
  {
  }

  /** Formatting a digit line loses nothing: the line is recovered from
      what is printed. */
  lemma FormatRoundTrip(line: seq<char>)
    requires DigitLine(line)
    ensures FormatDataLine(line).Some?
    ensures |FormatDataLine(line).value| == OUTPUT_LENGTH
    ensures Unformat(FormatDataLine(line).value) == line
  {
    FormatDigits(line);
    UnformatLayout(line);
  }

  /** The digits are not validated: a '/' in a pair gives a negative value,
      printed with its sign, and the line comes out one character short. */
  lemma NonDigitPrintedAsIs()
    ensures Pair('/', '5') == -5 && Int02(-5) == "-5"
    ensures FormatDataLine("D/50000000000") == Some("D: x -5.00 y 00.00 z 00.00\n")
  {
    var t := "D/50000000000";
    ExampleValues();
    ExampleText(t);
    FormatIs(t, "-5", "00", "00", "00", "00", "00");
    ExampleJoin(CStr(t)[0]);
  }

  lemma ExampleValues()
    ensures Int02(-5) == "-5" && Int02(0) == "00"
  {
    assert NatStr(5) == "5" && NatStr(0) == "0";
  }

  lemma ExampleText(t: seq<char>)
    requires t == "D/50000000000"
    ensures CStr(t) == t && t[0] == 'D'
    ensures Pair(t[1], t[2]) == -5
    ensures forall i :: 3 <= i < LINE_LENGTH ==> t[i] == '0'
  {
    CStrOfPlain(t);
  }

  lemma ExampleJoin(c: char)
    requires c == 'D'
    ensures [c] + ": x " + "-5" + "." + "00" + " y " + "00" + "." + "00" + " z " + "00" + "." + "00" + "\n"
      == "D: x -5.00 y 00.00 z 00.00\n"
  {
  }

  // ------------------------------------------------------------ messages

  /** The number of lines a message of `n` characters is cut into:
      `ceil(n / 13)`. */
  function ChunkCount(n: nat): nat {
    (n + LINE_LENGTH - 1) / LINE_LENGTH
  }

  /** The `k`-th line of message text `s`: 13 characters from offset
      `13 * k`, fewer at the end. */
  function Chunk(s: seq<char>, k: nat): (c: seq<char>)
    requires k < ChunkCount(|s|)
    ensures 1 <= |c| <= LINE_LENGTH
    ensures k < ChunkCount(|s|) - 1 ==> |c| == LINE_LENGTH
  {
    var i := LINE_LENGTH * k;
    if i + LINE_LENGTH <= |s| then s[i..i + LINE_LENGTH] else s[i..]
  }

  /** The lines the loop hands to `format_data_line`, in order. */
  function Chunks(s: seq<char>): (cs: seq<seq<char>>)
    ensures |cs| == ChunkCount(|s|)
    ensures forall k :: 0 <= k < |cs| ==> cs[k] == Chunk(s, k)
  {
    seq(ChunkCount(|s|), k requires 0 <= k < ChunkCount(|s|) => Chunk(s, k))
  }

  /** The lines of a message cover it exactly, in order. */
  lemma {:induction false} ChunksCover(s: seq<char>, k: nat)
    requires k <= ChunkCount(|s|)
    ensures Concat(Chunks(s)[..k]) == s[..if LINE_LENGTH * k <= |s| then LINE_LENGTH * k else |s|]
  {
    if k == 0 {
      assert Chunks(s)[..0] == [];
    } else {
      ChunksCover(s, k - 1);
      var cs := Chunks(s);
      var i := LINE_LENGTH * (k - 1);
      var j := if LINE_LENGTH * k <= |s| then LINE_LENGTH * k else |s|;
      ChunkStart(|s|, k);
      assert cs[k - 1] == s[i..j];
      CoverStep(cs, s, k, i, j);
    }
  }

  /** One more line extends the covered prefix. */
  lemma CoverStep(cs: seq<seq<char>>, s: seq<char>, k: nat, i: nat, j: nat)
    requires 0 < k <= |cs| && i <= j <= |s|
    requires Concat(cs[..k - 1]) == s[..i] && cs[k - 1] == s[i..j]
    ensures Concat(cs[..k]) == s[..j]
  {
    assert cs[..k][..k - 1] == cs[..k - 1];
    assert s[..i] + s[i..j] == s[..j];
  }

  lemma ChunkStart(n: nat, k: nat)
    requires 0 < k <= ChunkCount(n)
    ensures LINE_LENGTH * (k - 1) < n
    ensures LINE_LENGTH * k == LINE_LENGTH * (k - 1) + LINE_LENGTH
  {
  }

  lemma ChunksConcat(s: seq<char>)
    ensures Concat(Chunks(s)) == s
  {
    ChunksCover(s, ChunkCount(|s|));
    assert Chunks(s)[..ChunkCount(|s|)] == Chunks(s);
  }

  /** A message shorter than a multiple of 13 ends with a short line, which
      is rejected. */
  lemma ShortLastChunkRejected(s: seq<char>)
    requires NUL !in s && |s| % LINE_LENGTH != 0
    ensures FormatDataLine(Chunk(s, ChunkCount(|s|) - 1)).None?
  {
    var k := ChunkCount(|s|) - 1;
    var c := Chunk(s, k);
    assert LINE_LENGTH * k + LINE_LENGTH > |s|;
    assert c == s[LINE_LENGTH * k..];
    assert forall i :: 0 <= i < |c| ==> c[i] == s[LINE_LENGTH * k + i];
    CStrOfPlain(c);
  }

  /** What the output file holds after the first `k` lines of text `s`. */
  function Written(s: seq<char>, k: nat): seq<char>
    requires k <= ChunkCount(|s|)
  {
    if k == 0 then []
    else
      var out := FormatDataLine(Chunk(s, k - 1));
      Written(s, k - 1) + (if out.Some? then out.value else [])
  }

  /** The text of a message: `strlen` of the buffer. */
  function MessageText(message: seq<char>): seq<char> {
    CStr(message)
  }

  /** A message framed by the receive loop (13 characters, no NUL) is one
      line, formatted on its own. */
  lemma FramedMessageOneLine(m: seq<char>)
    requires |m| == LINE_LENGTH && NUL !in m
    ensures Chunks(m) == [m]
    ensures Written(m, ChunkCount(|m|)) == FormatDataLine(m).value
  {
    assert Chunk(m, 0) == m[0..13] == m;
    CStrOfPlain(m);
  }

  /** `strncpy(line, &text[i], 13); line[13] = '\0'`: the line buffer holds
      the chunk as its C string. */
  lemma ChunkCopy(s: seq<char>, k: nat)
    requires NUL !in s && k < ChunkCount(|s|)
    ensures CStr(Strncpy(s[LINE_LENGTH * k..], LINE_LENGTH) + [NUL]) == Chunk(s, k)
  {
    var rest := s[LINE_LENGTH * k..];
    var c := Chunk(s, k);
    CStrOfPlain(rest);
    var b := Strncpy(rest, LINE_LENGTH) + [NUL];
    assert b[..|c|] == c;
    if |c| < LINE_LENGTH {
      assert b[|c|] == NUL;
    } else {
      assert b[LINE_LENGTH] == NUL;
    }
    assert NUL !in c;
    IndexOfUnique(b, NUL, |c|);
  }

  lemma WrittenStep(s: seq<char>, k: nat, out: Option<seq<char>>)
    requires k < ChunkCount(|s|) && out == FormatDataLine(Chunk(s, k))
    ensures Written(s, k + 1) == Written(s, k) + (if out.Some? then out.value else [])
  {
  }

  /** The line buffer of the loop formats as the chunk it holds. */
  lemma LoopLine(s: seq<char>, k: nat, line: seq<char>)
    requires NUL !in s && k < ChunkCount(|s|)
    requires line == Strncpy(s[LINE_LENGTH * k..], LINE_LENGTH) + [NUL]
    ensures FormatDataLine(line) == FormatDataLine(Chunk(s, k))
  {
    ChunkCopy(s, k);
    CStrOfPlain(Chunk(s, k));
    SameText(line, Chunk(s, k));
  }

  lemma LoopStep(s: seq<char>, k: nat, line: seq<char>, out: Option<seq<char>>)
    requires NUL !in s && k < ChunkCount(|s|)
    requires line == Strncpy(s[LINE_LENGTH * k..], LINE_LENGTH) + [NUL]
    requires out == FormatDataLine(line)
    ensures Written(s, k + 1) == Written(s, k) + (if out.Some? then out.value else [])
  {
    LoopLine(s, k, line);
    WrittenStep(s, k, out);
  }

  /** `format_data_line` sees only the C string of its argument. */
  lemma SameText(a: seq<char>, b: seq<char>)
    requires CStr(a) == CStr(b)
    ensures FormatDataLine(a) == FormatDataLine(b)
  {
  }

  /** The output file, `ext_data.txt`. */
  class OutputFile {
    var contents: seq<char>

    constructor (initial: seq<char>)
      ensures contents == initial
    {
      contents := initial;
    }

    /** `process_received_message`: the file is opened for writing, which
        empties it, and every line of the message is formatted into it;
        when it cannot be opened nothing happens. */
    method ProcessReceivedMessage(message: seq<char>, openOk: bool)
      modifies this
      ensures !openOk ==> contents == old(contents)
      ensures openOk ==> contents == Written(MessageText(message), ChunkCount(|MessageText(message)|))
    {
      if !openOk {
        return;
      }
      contents := [];
      var s := MessageText(message);
      var count := ChunkCount(|s|);
      var k := 0;
      while k < count
        invariant k <= count
        invariant contents == Written(s, k)
      {
        var line := Strncpy(s[LINE_LENGTH * k..], LINE_LENGTH) + [NUL];
        var out := FormatDataLine(line);
        LoopStep(s, k, line, out);
        if out.Some? {
          contents := contents + out.value;
        }
        k := k + 1;
      }
    }
  }
}
