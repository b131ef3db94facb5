/** The database writer: it parses records of the form
      `<id>: <status>: x <number> y <number> z <number>`
    as `sscanf("%17s: %c: x %lf y %lf z %lf")` does, and issues one SQLite
    INSERT command per record that parses. Records come from reads of the
    FIFO, which is reopened whenever its writer goes away, or from the lines
    of the log file. A command's success is never looked at, so what the
    program does is fully described by the commands it issues. */
module StoreWriter {
  import opened Text
  import opened Numbers

  /** One parsed record: identifier (a MAC address), status character and
      three coordinates. */
  datatype Record = Record(id: seq<char>, status: char, x: Decimal, y: Decimal, z: Decimal)

  /** `%17s`: the width of the identifier field. */
  const ID_WIDTH: nat := 17

  /** Size of the command buffer given to `snprintf`. */
  const COMMAND_SIZE: nat := 256

  /** Size of the read buffer; a read takes at most one byte less. */
  const READ_SIZE: nat := 256

  /** Length of the run of non-whitespace characters at the head of `s`. */
  function NonSpaceRun(s: seq<char>): (n: nat)
    ensures n <= |s|
    ensures forall i :: 0 <= i < n ==> !IsSpace(s[i])
    ensures n < |s| ==> IsSpace(s[n])
  {
    if s != [] && !IsSpace(s[0]) then 1 + NonSpaceRun(s[1..]) else 0
  }

  /** `%Ns`: skip whitespace, then take 1 to `width` non-whitespace
      characters, as many as there are. */
  function ScanString(s: seq<char>, width: nat): (r: Option<(seq<char>, seq<char>)>)
    ensures r.Some? ==> 1 <= |r.value.0| <= width && forall c <- r.value.0 :: !IsSpace(c)
  {
    var t := SkipSpace(s);
    var run := NonSpaceRun(t);
    var n := if run < width then run else width;
    if n == 0 then None
    else
      assert forall i :: 0 <= i < n ==> !IsSpace(t[..n][i]);
      Some((t[..n], t[n..]))
  }

  /** An ordinary character of the format: the next input character must be
      that character. */
  function Lit(s: seq<char>, c: char): (r: Option<seq<char>>)
    ensures r.Some? <==> s != [] && s[0] == c
    ensures r.Some? ==> r.value == s[1..]
  {
    if s != [] && s[0] == c then Some(s[1..]) else None
  }

  /** ` <tag> %lf`: optional whitespace, the tag character, and a
      number (which skips its own leading whitespace). */
  function Labelled(s: seq<char>, tag: char): Option<(Decimal, seq<char>)>
  {
    var t :- Lit(SkipSpace(s), tag);
    ScanNumber(t)
  }

  /** `%17s: %c:` — identifier, colon, optional whitespace, status, colon. */
  function ParseHead(s: seq<char>): Option<(seq<char>, char, seq<char>)>
  {
    var idRest :- ScanString(s, ID_WIDTH);
    var afterId :- Lit(idRest.1, ':');
    var u := SkipSpace(afterId);
    if u == [] then None
    else
      var afterStatus :- Lit(u[1..], ':');
      Some((idRest.0, u[0], afterStatus))
  }

  /** ` x %lf y %lf z %lf`; whatever follows the last number is ignored. */
  function ParseCoords(s: seq<char>): Option<(Decimal, Decimal, Decimal, seq<char>)>
  {
    var x :- Labelled(s, 'x');
    var y :- Labelled(x.1, 'y');
    var z :- Labelled(y.1, 'z');
    Some((x.0, y.0, z.0, z.1))
  }

  /** The whole conversion: it counts only when all five fields convert.
      `sscanf` reads the buffer as a C string. */
  function ParseRecord(line: seq<char>): Option<Record>
  {
    var head :- ParseHead(CStr(line));
    var coords :- ParseCoords(head.2);
    Some(Record(head.0, head.1, coords.0, coords.1, coords.2))
  }

  // ------------------------------------------------------------ encoding

  /** One labelled coordinate as a producer sends it: ` x 12.34`. */
  function Field(tag: char, d: Decimal): seq<char>
  {
    [' ', tag, ' '] + Render(d)
  }

  /** The text of the coordinates as a producer sends them. */
  function CoordsText(x: Decimal, y: Decimal, z: Decimal): seq<char>
  {
    Field('x', x) + Field('y', y) + Field('z', z)
  }

  /** The text of a record as a producer sends it. */
  function Encode(r: Record): seq<char>
  {
    r.id + ": " + [r.status] + ":" + CoordsText(r.x, r.y, r.z)
  }

  /** A record the format can carry back unchanged: a 17-character
      identifier without whitespace or NUL and a visible status. */
  predicate Sendable(r: Record) {
    && |r.id| == ID_WIDTH
    && (forall c <- r.id :: !IsSpace(c) && c != NUL)
    && !IsSpace(r.status) && r.status != NUL
  }

  lemma SkipOneSpace(s: seq<char>)
    ensures SkipSpace([' '] + s) == SkipSpace(s)
  {
    assert ([' '] + s)[1..] == s;
  }

  lemma LabelledRender(tag: char, d: Decimal, rest: seq<char>)
    requires !IsSpace(tag) && EndsNumber(rest)
    ensures Labelled(Field(tag, d) + rest, tag) == Some((d, rest))
  {
    RenderedNumber(d);
    ScanRender(d, rest);
    LabelledNumeral(tag, Render(d), d, rest);
  }

  /** A labelled field reads as the number its numeral reads as. */
  lemma LabelledNumeral(tag: char, num: seq<char>, d: Decimal, rest: seq<char>)
    requires !IsSpace(tag) && num != [] && !IsSpace(num[0])
    requires ScanNumber(num + rest) == Some((d, rest))
    ensures Labelled([' ', tag, ' '] + num + rest, tag) == Some((d, rest))
  {
    var x := num + rest;
    assert [' ', tag, ' '] + num + rest == [' ', tag, ' '] + x;
    SkipToTag(tag, x);
    LabelledAfterSkip([' ', tag, ' '] + x, tag, x);
    SpaceBeforeNumber(x);
  }

  lemma SkipToTag(tag: char, x: seq<char>)
    requires !IsSpace(tag)
    ensures SkipSpace([' ', tag, ' '] + x) == [tag, ' '] + x
  {
    var u := [tag, ' '] + x;
    assert [' ', tag, ' '] + x == [' '] + u;
    SkipOneThenStop(u);
  }

  lemma SkipOneThenStop(u: seq<char>)
    requires u != [] && !IsSpace(u[0])
    ensures SkipSpace([' '] + u) == u
  {
    SkipOneSpace(u);
    SkipNoSpace(u);
  }

  lemma LabelledAfterSkip(s: seq<char>, tag: char, x: seq<char>)
    requires SkipSpace(s) == [tag, ' '] + x
    ensures Labelled(s, tag) == ScanNumber([' '] + x)
  {
    LitThenSpace(SkipSpace(s), tag, x);
  }

  lemma LitThenSpace(u: seq<char>, tag: char, x: seq<char>)
    requires u == [tag, ' '] + x
    ensures Lit(u, tag) == Some([' '] + x)
  {
    assert u[1..] == [' '] + x;
  }

  lemma SpaceBeforeNumber(x: seq<char>)
    requires x != [] && !IsSpace(x[0])
    ensures ScanNumber([' '] + x) == ScanNumber(x)
  {
    SkipOneSpace(x);
    SkipNoSpace(x);
    ScanNumberSkips([' '] + x);
    ScanNumberSkips(x);
  }

  lemma CoordsRoundTrip(x: Decimal, y: Decimal, z: Decimal, rest: seq<char>)
    requires EndsNumber(rest)
    ensures ParseCoords(CoordsText(x, y, z) + rest) == Some((x, y, z, rest))
  {
    CoordsTextSplit(x, y, z, rest);
    FieldsParse(x, y, z, rest);
  }

  lemma FieldsParse(x: Decimal, y: Decimal, z: Decimal, rest: seq<char>)
    requires EndsNumber(rest)
    ensures ParseCoords(Field('x', x) + (Field('y', y) + (Field('z', z) + rest))) == Some((x, y, z, rest))
  {
    var zr := Field('z', z) + rest;
    FieldRead('z', z, rest);
    FieldRead('y', y, zr);
    FieldRead('x', x, Field('y', y) + zr);
    CoordsFromFields(Field('x', x), Field('y', y), Field('z', z), x, y, z, rest);
  }

  /** A labelled field reads back before any text that cannot continue its
      number, and itself cannot continue the number before it. */
  lemma FieldRead(tag: char, d: Decimal, rest: seq<char>)
    requires !IsSpace(tag) && EndsNumber(rest)
    ensures Labelled(Field(tag, d) + rest, tag) == Some((d, rest))
    ensures EndsNumber(Field(tag, d) + rest)
  {
    LabelledRender(tag, d, rest);
    FieldEndsNumber(tag, d, rest);
  }

  /** A labelled field starts with a space, so it cannot continue a
      number before it. */
  lemma FieldEndsNumber(tag: char, d: Decimal, rest: seq<char>)
    ensures EndsNumber(Field(tag, d) + rest)
  {
    assert (Field(tag, d) + rest)[0] == ' ';
  }

  lemma CoordsTextSplit(x: Decimal, y: Decimal, z: Decimal, rest: seq<char>)
    ensures CoordsText(x, y, z) + rest == Field('x', x) + (Field('y', y) + (Field('z', z) + rest))
  {
  }

  lemma CoordsFromFields(fx: seq<char>, fy: seq<char>, fz: seq<char>, x: Decimal, y: Decimal, z: Decimal, rest: seq<char>)
    requires Labelled(fz + rest, 'z') == Some((z, rest))
    requires Labelled(fy + (fz + rest), 'y') == Some((y, fz + rest))
    requires Labelled(fx + (fy + (fz + rest)), 'x') == Some((x, fy + (fz + rest)))
    ensures ParseCoords(fx + (fy + (fz + rest))) == Some((x, y, z, rest))
  {
  }

  lemma HeadRoundTrip(r: Record, tail: seq<char>)
    requires Sendable(r)
    requires tail != [] && tail[0] == ' '
    ensures ParseHead(r.id + ": " + [r.status] + ":" + tail) == Some((r.id, r.status, tail))
  {
    var b := [' '] + ([r.status] + (":" + tail));
    var a := [':'] + b;
    HeadText(r.id, r.status, tail);
    ScanIdExact(r.id, a);
    SkipOneSpace([r.status] + (":" + tail));
    SkipNoSpace([r.status] + (":" + tail));
    HeadSteps(r.id + a, r.id, a, b, r.status, tail);
  }

  lemma HeadText(id: seq<char>, status: char, tail: seq<char>)
    ensures id + ": " + [status] + ":" + tail == id + ([':'] + ([' '] + ([status] + (":" + tail))))
  {
  }

  /** `%17s` on a 17-character word takes exactly that word. */
  lemma ScanIdExact(id: seq<char>, after: seq<char>)
    requires |id| == ID_WIDTH && forall c <- id :: !IsSpace(c)
    ensures ScanString(id + after, ID_WIDTH) == Some((id, after))
  {
    var s := id + after;
    assert s[0] == id[0];
    SkipNoSpace(s);
    assert forall i :: 0 <= i < ID_WIDTH ==> !IsSpace(s[i]);
    NonSpaceAtLeast(s, ID_WIDTH);
    assert s[..ID_WIDTH] == id && s[ID_WIDTH..] == after;
  }

  lemma HeadSteps(s: seq<char>, id: seq<char>, a: seq<char>, b: seq<char>, status: char, tail: seq<char>)
    requires ScanString(s, ID_WIDTH) == Some((id, a))
    requires a == [':'] + b
    requires SkipSpace(b) == [status] + (":" + tail)
    ensures ParseHead(s) == Some((id, status, tail))
  {
    assert Lit(a, ':') == Some(b);
    var u := SkipSpace(b);
    assert u != [] && u[0] == status;
    assert u[1..] == ":" + tail;
    assert Lit(u[1..], ':') == Some(tail);
  }

  lemma {:induction false} NonSpaceAtLeast(s: seq<char>, k: nat)
    requires k <= |s| && forall i :: 0 <= i < k ==> !IsSpace(s[i])
    ensures NonSpaceRun(s) >= k
  {
    if k > 0 {
      NonSpaceAtLeast(s[1..], k - 1);
    }
  }

  /** Parsing undoes encoding for every record the format can carry,
      whatever follows the record, provided it cannot continue the last
      number. */
  lemma ParseEncode(r: Record, rest: seq<char>)
    requires Sendable(r)
    requires EndsNumber(rest) && NUL !in rest
    ensures ParseRecord(Encode(r) + rest) == Some(r)
  {
    var tail := CoordsText(r.x, r.y, r.z);
    EncodeNoNul(r);
    EncodeSplit(r, rest);
    CoordsTextHead(r.x, r.y, r.z);
    HeadRoundTrip(r, tail + rest);
    CoordsRoundTrip(r.x, r.y, r.z, rest);
    RecordSteps(Encode(r) + rest, r, tail + rest, rest);
  }

  lemma RecordSteps(line: seq<char>, r: Record, tail: seq<char>, rest: seq<char>)
    requires NUL !in line
    requires ParseHead(line) == Some((r.id, r.status, tail))
    requires ParseCoords(tail) == Some((r.x, r.y, r.z, rest))
    ensures ParseRecord(line) == Some(r)
  {
    CStrOfPlain(line);
  }

  lemma EncodeSplit(r: Record, rest: seq<char>)
    ensures Encode(r) + rest == r.id + ": " + [r.status] + ":" + (CoordsText(r.x, r.y, r.z) + rest)
  {
  }

  lemma CoordsTextHead(x: Decimal, y: Decimal, z: Decimal)
    ensures CoordsText(x, y, z) != [] && CoordsText(x, y, z)[0] == ' '
  {
  }

  lemma FieldNoNul(tag: char, d: Decimal)
    requires tag != NUL
    ensures NUL !in Field(tag, d)
  {
    RenderChars(d);
  }

  lemma EncodeNoNul(r: Record)
    requires NUL !in r.id && r.status != NUL
    ensures NUL !in Encode(r)
  {
    FieldNoNul('x', r.x);
    FieldNoNul('y', r.y);
    FieldNoNul('z', r.z);
    NoNulJoin(r.id, r.status, Field('x', r.x), Field('y', r.y), Field('z', r.z));
  }

  lemma NoNulJoin(id: seq<char>, status: char, fx: seq<char>, fy: seq<char>, fz: seq<char>)
    requires NUL !in id && status != NUL && NUL !in fx && NUL !in fy && NUL !in fz
    ensures NUL !in id + ": " + [status] + ":" + (fx + fy + fz)
  {
  }

  /** `%17s` stops only at whitespace, so an identifier shorter than 17
      characters takes the colon after it, and the literal colon that
      follows in the format then fails. */
  lemma ShortIdRejected(r: Record, rest: seq<char>)
    requires 1 <= |r.id| < ID_WIDTH
    requires forall c <- r.id :: !IsSpace(c) && c != NUL
    requires !IsSpace(r.status) && r.status != NUL && NUL !in rest
    ensures ParseRecord(Encode(r) + rest) == None
  {
    var more := [r.status] + ":" + (CoordsText(r.x, r.y, r.z) + rest);
    EncodeNoNul(r);
    EncodeAfterId(r, rest);
    ShortWord(r.id, more);
    RecordFails(Encode(r) + rest);
  }

  lemma EncodeAfterId(r: Record, rest: seq<char>)
    ensures Encode(r) + rest == r.id + ": " + ([r.status] + ":" + (CoordsText(r.x, r.y, r.z) + rest))
  {
    Regroup(r.id, ": ", [r.status], ":", CoordsText(r.x, r.y, r.z), rest);
  }

  lemma Regroup<T>(a: seq<T>, b: seq<T>, c: seq<T>, d: seq<T>, e: seq<T>, f: seq<T>)
    ensures a + b + c + d + e + f == a + b + (c + d + (e + f))
  {
  }

  lemma RecordFails(line: seq<char>)
    requires NUL !in line && ParseHead(line) == None
    ensures ParseRecord(line) == None
  {
    CStrOfPlain(line);
  }

  /** A word shorter than the field followed by ": " is read with its colon. */
  lemma ShortWord(id: seq<char>, more: seq<char>)
    requires 1 <= |id| < ID_WIDTH && forall c <- id :: !IsSpace(c)
    ensures ParseHead(id + ": " + more) == None
  {
    var s := id + ": " + more;
    var n := |id| + 1;
    assert s[0] == id[0];
    SkipNoSpace(s);
    assert forall i :: 0 <= i < n ==> !IsSpace(s[i]);
    assert s[n] == ' ';
    NonSpaceExactly(s, n);
    assert ScanString(s, ID_WIDTH) == Some((s[..n], s[n..]));
    assert s[n..][0] == ' ';
  }

  lemma NonSpaceExactly(s: seq<char>, k: nat)
    requires k < |s| && IsSpace(s[k]) && forall i :: 0 <= i < k ==> !IsSpace(s[i])
    ensures NonSpaceRun(s) == k
  {
    NonSpaceAtLeast(s, k);
  }

  /** The record from the format's own description. */
  lemma DocumentedExample()
    ensures ParseRecord("AA:BB:CC:DD:EE:FF: D: x 12.34 y 56.78 z 90.12")
      == Some(Record("AA:BB:CC:DD:EE:FF", 'D', Decimal(1234, 2), Decimal(5678, 2), Decimal(9012, 2)))
  {
    var r := Record("AA:BB:CC:DD:EE:FF", 'D', Decimal(1234, 2), Decimal(5678, 2), Decimal(9012, 2));
    ExampleText(r);
    ExampleSendable(r);
    ParseEncode(r, []);
    assert Encode(r) + [] == Encode(r);
  }

  lemma ExampleSendable(r: Record)
    requires r.id == "AA:BB:CC:DD:EE:FF" && r.status == 'D'
    ensures Sendable(r)
  {
    forall c | c in r.id
      ensures !IsSpace(c) && c != NUL
    {
      assert c in "ABCDEF:";
    }
  }

  lemma ExampleText(r: Record)
    requires r == Record("AA:BB:CC:DD:EE:FF", 'D', Decimal(1234, 2), Decimal(5678, 2), Decimal(9012, 2))
    ensures Encode(r) == "AA:BB:CC:DD:EE:FF: D: x 12.34 y 56.78 z 90.12"
  {
    ExampleField('x', 12, 34, "12.34");
    ExampleField('y', 56, 78, "56.78");
    ExampleField('z', 90, 12, "90.12");
    ExampleJoin(r.id, r.status, Field('x', r.x), Field('y', r.y), Field('z', r.z));
  }

  lemma ExampleJoin(id: seq<char>, status: char, fx: seq<char>, fy: seq<char>, fz: seq<char>)
    requires id == "AA:BB:CC:DD:EE:FF" && status == 'D'
    requires fx == " x 12.34" && fy == " y 56.78" && fz == " z 90.12"
    ensures id + ": " + [status] + ":" + (fx + fy + fz) == "AA:BB:CC:DD:EE:FF: D: x 12.34 y 56.78 z 90.12"
  {
  }

  lemma ExampleField(tag: char, w: nat, f: nat, text: seq<char>)
    requires 10 <= w < 100 && 10 <= f < 100
    requires text == [DigitChar(w / 10), DigitChar(w % 10), '.', DigitChar(f / 10), DigitChar(f % 10)]
    ensures Field(tag, Decimal(w * 100 + f, 2)) == [' ', tag, ' '] + text
  {
    RenderTwoPlaces(w, f);
  }

  /** Two-digit whole part, two decimals. */
  lemma RenderTwoPlaces(w: nat, f: nat)
    requires 10 <= w < 100 && 10 <= f < 100
    ensures Render(Decimal(w * 100 + f, 2)) == [DigitChar(w / 10), DigitChar(w % 10), '.', DigitChar(f / 10), DigitChar(f % 10)]
  {
    var m := w * 100 + f;
    FourDigits(m);
    FourDigitSplit(w, f);
    assert Magnitude(Decimal(m, 2)) == NatStr(m);
  }

  lemma FourDigits(m: nat)
    requires 1000 <= m < 10000
    ensures NatStr(m) == [DigitChar(m / 1000), DigitChar(m / 100 % 10), DigitChar(m / 10 % 10), DigitChar(m % 10)]
  {
    assert NatStr(m / 100) == NatStr(m / 1000) + [DigitChar(m / 100 % 10)];
    assert NatStr(m / 10) == NatStr(m / 100) + [DigitChar(m / 10 % 10)];
  }

  lemma FourDigitSplit(w: nat, f: nat)
    requires 10 <= w < 100 && 10 <= f < 100
    ensures var m := w * 100 + f;
            1000 <= m < 10000 && m / 1000 == w / 10 && m / 100 % 10 == w % 10 && m / 10 % 10 == f / 10 && m % 10 == f % 10
  {
    var a, b, c, d := w / 10, w % 10, f / 10, f % 10;
    assert w * 100 + f == 1000 * a + 100 * b + 10 * c + d;
    DivDigits(a, b, c, d);
  }

  lemma DivDigits(a: nat, b: nat, c: nat, d: nat)
    requires 1 <= a <= 9 && b <= 9 && c <= 9 && d <= 9
    ensures var m := 1000 * a + 100 * b + 10 * c + d;
            1000 <= m < 10000 && m / 1000 == a && m / 100 % 10 == b && m / 10 % 10 == c && m % 10 == d
  {
    var m := 1000 * a + 100 * b + 10 * c + d;
    assert m / 10 == 100 * a + 10 * b + c;
    assert m / 100 == 10 * a + b;
  }

  // ------------------------------------------------------------ commands

  /** A value printed with `%.2f`. A value with at most two decimals is
      printed exactly; one with more is rounded to the nearest hundredth,
      a tie going to the even one. */
  function Fixed2(d: Decimal): (r: Decimal)
    ensures r.scale == 2
  {
    if d.scale <= 2 then Decimal(d.mantissa * Pow10(2 - d.scale), 2)
    else Decimal(NearestEven(d.Value() * 100.0), 2)
  }

  /** A value with more than two decimals is printed within half a
      hundredth of it, and exactly when it is a whole number of
      hundredths. */
  lemma Fixed2Nearest(d: Decimal)
    requires d.scale > 2
    ensures -0.5 <= Fixed2(d).mantissa as real - d.Value() * 100.0 <= 0.5
    ensures (d.Value() * 100.0).Floor as real == d.Value() * 100.0
            <==> Fixed2(d).mantissa as real == d.Value() * 100.0
  {
  }

  /** A tie goes to the even hundredth: 1.125 prints as 1.12 and 1.375 as
      1.38, both held exactly by a `double`; 1.126 rounds up to 1.13. */
  lemma Fixed2Examples()
    ensures Fixed2(Decimal(1125, 3)) == Decimal(112, 2)
    ensures Fixed2(Decimal(1375, 3)) == Decimal(138, 2)
    ensures Fixed2(Decimal(1126, 3)) == Decimal(113, 2)
    ensures Fixed2(Decimal(-1125, 3)) == Decimal(-112, 2)
  {
    assert Decimal(1125, 3).Value() * 100.0 == 112.5;
    assert Decimal(1375, 3).Value() * 100.0 == 137.5;
    assert Decimal(1126, 3).Value() * 100.0 == 112.6;
    assert Decimal(-1125, 3).Value() * 100.0 == -112.5;
    assert (112.5).Floor == 112 && (137.5).Floor == 137 && (112.6).Floor == 112 && (-112.5).Floor == -113;
  }

  /** Rounding keeps the side of zero a value is on: a negative value
      rounds to a negative number of hundredths or to zero, any other value
      to a non-negative one. */
  lemma Fixed2Sign(d: Decimal)
    ensures d.mantissa < 0 ==> Fixed2(d).mantissa <= 0
    ensures d.mantissa >= 0 ==> Fixed2(d).mantissa >= 0
  {
    if d.scale <= 2 {
      var p := Pow10(2 - d.scale);
      if d.mantissa < 0 {
        assert d.mantissa * p == -((-d.mantissa) * p);
      }
    } else {
      var v := d.Value();
      if d.mantissa < 0 {
        assert v < 0.0;
      } else {
        assert v >= 0.0;
      }
    }
  }

  /** The text `%.2f` prints for a value: the digits of its rounding to
      hundredths, after a minus sign whenever the value itself is negative,
      even when it rounds to zero (-0.001 prints as "-0.00"). */
  function Fixed2Text(d: Decimal): (t: seq<char>)
  {
    (if d.mantissa < 0 then "-" else "") + PointAt(Magnitude(Fixed2(d)), 2)
  }

  /** The printed text is the canonical text of the rounded value, except
      for a negative value that rounds to zero, which keeps its sign. */
  lemma Fixed2TextRender(d: Decimal)
    ensures d.mantissa >= 0 || Fixed2(d).mantissa != 0 ==> Fixed2Text(d) == Render(Fixed2(d))
    ensures d.mantissa < 0 && Fixed2(d).mantissa == 0 ==> Fixed2Text(d) == "-" + Render(Fixed2(d))
    ensures |Render(Fixed2(d))| <= |Fixed2Text(d)| <= |Render(Fixed2(d))| + 1
  {
    Fixed2Sign(d);
  }

  /** A small negative value prints with its sign: -0.001 and -0.004 as
      "-0.00", -0.006 as "-0.01". */
  lemma Fixed2TextExamples()
    ensures Fixed2Text(Decimal(-1, 3)) == "-0.00"
    ensures Fixed2Text(Decimal(-4, 3)) == "-0.00"
    ensures Fixed2Text(Decimal(-6, 3)) == "-0.01"
    ensures Fixed2Text(Decimal(1, 3)) == "0.00"
  {
    assert Decimal(-1, 3).Value() * 100.0 == -0.1;
    assert Decimal(-4, 3).Value() * 100.0 == -0.4;
    assert Decimal(-6, 3).Value() * 100.0 == -0.6;
    assert Decimal(1, 3).Value() * 100.0 == 0.1;
    assert (-0.1).Floor == -1 && (-0.4).Floor == -1 && (-0.6).Floor == -1 && (0.1).Floor == 0;
    assert NatStr(0) == "0" && NatStr(1) == "1";
  }

  /** Printing a value that has at most two decimals keeps its value. */
  lemma Fixed2Exact(d: Decimal)
    requires d.scale <= 2
    ensures Fixed2(d).Value() == d.Value()
  {
    var k := 2 - d.scale;
    Pow10Add(k, d.scale);
    assert Pow10(2) == Pow10(k) * Pow10(d.scale);
    var m := d.mantissa as real;
    var pk := Pow10(k) as real;
    var ps := Pow10(d.scale) as real;
    assert (d.mantissa * Pow10(k)) as real == m * pk;
    assert Pow10(2) as real == pk * ps;
    assert (m * pk) / (pk * ps) == m / ps;
  }

  /** `snprintf` into a buffer of `size` bytes keeps at most `size - 1`
      characters. */
  function Truncate(text: seq<char>, size: nat): (r: seq<char>)
    requires size >= 1
    ensures |r| <= size - 1 && r <= text
    ensures |text| < size ==> r == text
  {
    if |text| < size then text else text[..size - 1]
  }

  /** The fixed text of the insert command before the identifier, and
      after the last coordinate. */
  const INSERT_HEAD: seq<char> := "sqlite prksys_db.db \"INSERT INTO Customer_Data (mac_address, status, x, y, z) VALUES ('"
  const INSERT_TAIL: seq<char> := ");\""

  /** The insert command as `snprintf` formats it, before it is cut to the
      buffer. */
  function InsertText(r: Record): seq<char>
  {
    INSERT_HEAD + r.id + "', '" + [r.status] + "', "
    + Fixed2Text(r.x) + ", " + Fixed2Text(r.y) + ", " + Fixed2Text(r.z) + INSERT_TAIL
  }

  /** The characters of the command that depend on the record beyond its
      one status character. */
  function FieldWidth(r: Record): nat
  {
    |r.id| + |Fixed2Text(r.x)| + |Fixed2Text(r.y)| + |Fixed2Text(r.z)|
  }

  /** Room the 256-byte buffer leaves for those characters: 255 minus the
      102 characters of fixed text and status. */
  const FIELD_ROOM: nat := 153

  /** The shell command that inserts a record: the formatted command when
      the fields fit the room the buffer leaves, and otherwise its first 255
      characters, which lose at least the closing quote. */
  function InsertCommand(r: Record): (cmd: seq<char>)
    ensures |cmd| < COMMAND_SIZE && cmd <= InsertText(r)
    ensures cmd == InsertText(r) <==> FieldWidth(r) <= FIELD_ROOM
    ensures FieldWidth(r) > FIELD_ROOM ==> |cmd| == COMMAND_SIZE - 1 < |InsertText(r)|
  {
    assert |InsertText(r)| == 102 + FieldWidth(r);
    Truncate(InsertText(r), COMMAND_SIZE)
  }

  /** A record the parser produced, with coordinates of at most 40 integer
      digits, always gives the whole command: the 17-character identifier
      and three renderings of at most 45 characters fit the room. */
  lemma ParsedRecordFits(r: Record)
    requires |r.id| <= ID_WIDTH
    requires Abs(Fixed2(r.x).mantissa) < Pow10(42)
    requires Abs(Fixed2(r.y).mantissa) < Pow10(42)
    requires Abs(Fixed2(r.z).mantissa) < Pow10(42)
    ensures InsertCommand(r) == InsertText(r)
  {
    RenderedWithin(Fixed2(r.x));
    RenderedWithin(Fixed2(r.y));
    RenderedWithin(Fixed2(r.z));
    Fixed2TextRender(r.x);
    Fixed2TextRender(r.y);
    Fixed2TextRender(r.z);
  }

  lemma RenderedWithin(d: Decimal)
    requires d.scale == 2 && Abs(d.mantissa) < Pow10(42)
    ensures |Render(d)| <= 44
  {
    NatStrLength(Abs(d.mantissa), 42);
    RenderLength(d);
  }

  /** A coordinate with more integer digits than the room holds cuts the
      command, whatever the other fields are. */
  lemma LongCoordinateCut(r: Record)
    requires r.x.scale <= 2 && Abs(r.x.mantissa) >= Pow10(FIELD_ROOM)
    ensures |InsertCommand(r)| == COMMAND_SIZE - 1 < |InsertText(r)|
  {
    RenderedBeyond(r.x, FIELD_ROOM);
  }

  /** `%.2f` of a value with `k + 1` or more integer digits is longer than
      `k`. */
  lemma RenderedBeyond(d: Decimal, k: nat)
    requires d.scale <= 2 && Abs(d.mantissa) >= Pow10(k)
    ensures |Fixed2Text(d)| > k
  {
    Fixed2TextRender(d);
    var f := Fixed2(d);
    var p := Pow10(2 - d.scale);
    assert f == Decimal(d.mantissa * p, 2);
    ScaledAtLeast(d.mantissa, p);
    NatStrLong(Abs(f.mantissa), k);
    RenderLength(f);
  }

  lemma ScaledAtLeast(m: int, p: nat)
    requires p >= 1
    ensures Abs(m * p) >= Abs(m)
  {
    if m < 0 {
      assert m * p == -((-m) * p);
    }
    assert Abs(m) * p >= Abs(m) * 1;
  }

  /** What one line produces: an insert command when the record parses,
      nothing (only an error message) otherwise. */
  function ProcessLine(line: seq<char>): (r: Option<seq<char>>)
    ensures r.Some? <==> ParseRecord(line).Some?
    ensures r.Some? ==> r.value == InsertCommand(ParseRecord(line).value)
  {
    match ParseRecord(line)
    case None => None
    case Some(rec) => Some(InsertCommand(rec))
  }

  /** `f` applied to each element, in order. */
  function Apply<A, B>(f: A -> B, xs: seq<A>): (ys: seq<B>)
    ensures |ys| == |xs| && forall i :: 0 <= i < |xs| ==> ys[i] == f(xs[i])
  {
    seq(|xs|, i requires 0 <= i < |xs| => f(xs[i]))
  }

  lemma ApplyAppend<A, B>(f: A -> B, a: seq<A>, b: seq<A>)
    ensures Apply(f, a + b) == Apply(f, a) + Apply(f, b)
  {
  }

  /** The result of each line, in order. */
  function Outputs(lines: seq<seq<char>>): (os: seq<Option<seq<char>>>)
    ensures |os| == |lines|
  {
    Apply(ProcessLine, lines)
  }

  /** The values present, in order. */
  function Somes<T>(os: seq<Option<T>>): (r: seq<T>)
    ensures |r| <= |os|
  {
    if os == [] then []
    else Somes(os[..|os| - 1]) + (if os[|os| - 1].Some? then [os[|os| - 1].value] else [])
  }

  lemma {:induction false} SomesAppend<T>(a: seq<Option<T>>, b: seq<Option<T>>)
    ensures Somes(a + b) == Somes(a) + Somes(b)
    decreases |b|
  {
    if b == [] {
      assert a + b == a;
    } else {
      assert (a + b)[..|a + b| - 1] == a + b[..|b| - 1];
      SomesAppend(a, b[..|b| - 1]);
    }
  }

  /** Commands issued for lines processed in order. */
  function Issued(lines: seq<seq<char>>): (cmds: seq<seq<char>>)
    ensures |cmds| <= |lines|
  {
    Somes(Outputs(lines))
  }

  lemma IssuedAppend(a: seq<seq<char>>, b: seq<seq<char>>)
    ensures Issued(a + b) == Issued(a) + Issued(b)
  {
    ApplyAppend(ProcessLine, a, b);
    SomesAppend(Outputs(a), Outputs(b));
  }

  /** One line issues its command, if any. */
  lemma IssuedOne(line: seq<char>)
    ensures Issued([line]) == if ProcessLine(line).Some? then [ProcessLine(line).value] else []
  {
    var os := Outputs([line]);
    assert os == [ProcessLine(line)];
    assert os[..0] == [];
  }

  /** Several records that reach the writer in one read give a single
      command, for the first of them: the text after the third number is
      ignored. */
  lemma ConcatenatedRecords(r: Record, more: seq<char>)
    requires Sendable(r) && EndsNumber(more) && NUL !in more
    ensures ProcessLine(Encode(r) + more) == Some(InsertCommand(r))
  {
    ParseEncode(r, more);
  }

  /** Records are written with no separator, and an identifier may start
      with digits. Those digits continue the last number of the record
      before: `%lf` reads them as further decimals of z, so the single
      command carries that longer z, whose value differs unless the digits
      are all zeros. */
  lemma NextRecordExtendsZ(r: Record, ds: seq<char>, more: seq<char>)
    requires Sendable(r) && r.z.scale > 0
    requires ds != [] && AllDigits(ds) && EndsNumber(more) && NUL !in ds + more
    ensures ParseRecord(Encode(r) + ds + more) == Some(r.(z := Extended(r.z, ds)))
    ensures ProcessLine(Encode(r) + ds + more) == Some(InsertCommand(r.(z := Extended(r.z, ds))))
    ensures DigitsValue(ds) > 0 ==> Extended(r.z, ds).Value() != r.z.Value()
  {
    var z := Extended(r.z, ds);
    var tail := CoordsText(r.x, r.y, r.z);
    EncodeNoNul(r);
    EncodeSplit(r, ds + more);
    Assoc(Encode(r), ds, more);
    CoordsTextHead(r.x, r.y, r.z);
    HeadRoundTrip(r, tail + (ds + more));
    ExtendedFields(r.x, r.y, r.z, ds, more);
    RecordSteps(Encode(r) + ds + more, r.(z := z), tail + (ds + more), more);
    if DigitsValue(ds) > 0 {
      ExtendedValue(r.z, ds);
    }
  }

  /** The coordinates followed by digits parse with z extended by them. */
  lemma ExtendedFields(x: Decimal, y: Decimal, z: Decimal, ds: seq<char>, more: seq<char>)
    requires z.scale > 0 && ds != [] && AllDigits(ds) && EndsNumber(more)
    ensures ParseCoords(CoordsText(x, y, z) + (ds + more)) == Some((x, y, Extended(z, ds), more))
  {
    var fz := Field('z', z) + ds;
    var zr := fz + more;
    var yr := Field('y', y) + zr;
    CoordsTextSplit(x, y, z, ds + more);
    Assoc(Field('z', z), ds, more);
    ScanRenderExtended(z, ds, more);
    RenderedNumber(z);
    Assoc(Render(z), ds, more);
    LabelledNumeral('z', Render(z) + ds, Extended(z, ds), more);
    Assoc([' ', 'z', ' '], Render(z), ds);
    assert zr == Field('z', z) + (ds + more);
    FieldEndsNumber('z', z, ds + more);
    LabelledRender('y', y, zr);
    FieldEndsNumber('y', y, zr);
    LabelledRender('x', x, yr);
    CoordsFromFields(Field('x', x), Field('y', y), fz, x, y, Extended(z, ds), more);
  }

  // ------------------------------------------------------------ FIFO

  /** The bytes a successful `read` of at most `READ_SIZE - 1` bytes
      delivers: at least one (a return of 0 is end of stream). */
  type ReadBytes = b: seq<char> | 0 < |b| < READ_SIZE witness "x"

  /** Every piece is something one `read` can deliver. */
  predicate ReadSized(pieces: seq<seq<char>>)
  {
    forall i :: 0 <= i < |pieces| ==> 0 < |pieces[i]| < READ_SIZE
  }

  /** What a `read` on the FIFO returns: some bytes, end of stream (after
      which the FIFO is closed and reopened, which may fail), or an error. */
  datatype FifoEvent = Data(bytes: ReadBytes) | Eof(reopenOk: bool) | ReadError

  /** The reads the loop hands to the parser, in order, and whether the
      loop returned because a reopen failed. */
  function FifoRun(events: seq<FifoEvent>): (r: (seq<seq<char>>, bool))
    ensures |r.0| <= |events|
    ensures ReadSized(r.0)
  {
    if events == [] then ([], false)
    else
      match events[0]
      case Data(bytes) =>
        var rest := FifoRun(events[1..]);
        ([bytes] + rest.0, rest.1)
      case Eof(reopenOk) => if reopenOk then FifoRun(events[1..]) else ([], true)
      case ReadError => FifoRun(events[1..])
  }

  /** The commands the FIFO loop issues: one per read that parses, so
      several records arriving in one read give at most one command. */
  function FifoCommands(events: seq<FifoEvent>): (cmds: seq<seq<char>>)
    ensures |cmds| <= |events|
  {
    Issued(FifoRun(events).0)
  }

  /** A read of 0 bytes closes and reopens the FIFO and reading goes on; an
      error return changes nothing. */
  lemma ReopenResumes(rest: seq<FifoEvent>)
    ensures FifoRun([Eof(true)] + rest) == FifoRun(rest)
    ensures FifoRun([ReadError] + rest) == FifoRun(rest)
  {
    assert ([Eof(true)] + rest)[1..] == rest;
    assert ([ReadError] + rest)[1..] == rest;
  }

  /** A failed reopen ends the reader: nothing after it is processed. */
  lemma {:induction false} FailedReopenStops(pre: seq<FifoEvent>, rest: seq<FifoEvent>)
    ensures FifoRun(pre + [Eof(false)] + rest).0 == FifoRun(pre + [Eof(false)]).0
    ensures FifoRun(pre + [Eof(false)] + rest).1
  {
    if pre == [] {
      assert ([Eof(false)] + rest)[0] == Eof(false);
    } else {
      assert (pre + [Eof(false)] + rest)[1..] == pre[1..] + [Eof(false)] + rest;
      assert (pre + [Eof(false)])[1..] == pre[1..] + [Eof(false)];
      FailedReopenStops(pre[1..], rest);
    }
  }

  /** The bytes of each successful read, in order. */
  function DataOf(events: seq<FifoEvent>): (r: seq<seq<char>>)
    ensures |r| <= |events|
  {
    if events == [] then []
    else (if events[0].Data? then [events[0].bytes] else []) + DataOf(events[1..])
  }

  /** Without a failed reopen every read is processed, each on its own and
      in order. */
  lemma {:induction false} FifoReadsEachChunk(events: seq<FifoEvent>)
    requires forall i :: 0 <= i < |events| ==> events[i] != Eof(false)
    ensures FifoRun(events) == (DataOf(events), false)
  {
    if events != [] {
      FifoReadsEachChunk(events[1..]);
      var rest := FifoRun(events[1..]);
      match events[0]
      case Data(bytes) =>
        assert FifoRun(events) == ([bytes] + rest.0, rest.1);
      case Eof(reopenOk) =>
        assert reopenOk by {
          assert events[0] != Eof(false);
        }
        assert DataOf(events) == DataOf(events[1..]);
      case ReadError =>
        assert DataOf(events) == DataOf(events[1..]);
    }
  }

  /** One event of the loop. */
  lemma FifoStep(events: seq<FifoEvent>, k: nat)
    requires k < |events|
    ensures var rest := FifoRun(events[k + 1..]);
            FifoRun(events[k..]) == match events[k]
              case Data(bytes) => ([bytes] + rest.0, rest.1)
              case Eof(reopenOk) => if reopenOk then rest else ([], true)
              case ReadError => rest
  {
    assert events[k..][0] == events[k] && events[k..][1..] == events[k + 1..];
  }

  // ------------------------------------------------------------ data file

  /** `fgets(line, 256, file)`. */
  const LINE_SIZE: nat := 256

  /** The commands for a data file: none when it cannot be opened, locked
      or wrapped in a stream; otherwise one per parsing line, in order. */
  function DataFileRun(openOk: bool, lockOk: bool, fdopenOk: bool, contents: seq<char>): (cmds: seq<seq<char>>)
    ensures !(openOk && lockOk && fdopenOk) ==> cmds == []
  {
    if !openOk || !lockOk || !fdopenOk then [] else Issued(FgetsLines(contents, LINE_SIZE))
  }

  /** Each line followed by its newline. */
  function Terminated(ls: seq<seq<char>>): (r: seq<seq<char>>)
    ensures |r| == |ls|
    ensures forall i :: 0 <= i < |ls| ==> r[i] == ls[i] + "\n"
  {
    if ls == [] then [] else [ls[0] + "\n"] + Terminated(ls[1..])
  }

  /** A file of short newline-terminated lines (as the drain worker's log
      is) is read back one line per `fgets`, so each record is offered to
      the parser once, newline included, in order. */
  lemma {:induction false} DataFileReadsLines(ls: seq<seq<char>>)
    requires forall i :: 0 <= i < |ls| ==> '\n' !in ls[i] && |ls[i]| < LINE_SIZE - 1
    ensures DataFileRun(true, true, true, JoinLines(ls)) == Issued(Terminated(ls))
  {
    FgetsOfLines(ls);
  }

  lemma {:induction false} FgetsOfLines(ls: seq<seq<char>>)
    requires forall i :: 0 <= i < |ls| ==> '\n' !in ls[i] && |ls[i]| < LINE_SIZE - 1
    ensures FgetsLines(JoinLines(ls), LINE_SIZE) == Terminated(ls)
  {
    if ls != [] {
      var l := ls[0] + "\n";
      FgetsOfLines(ls[1..]);
      assert JoinLines(ls) == l + JoinLines(ls[1..]);
      FgetsLinesAppend(l, JoinLines(ls[1..]), LINE_SIZE);
      assert l[|ls[0]|] == '\n' && l[..|ls[0]|] == ls[0];
      IndexOfUnique(l, '\n', |ls[0]|);
      assert l[..|l|] == l && l[|l|..] == [];
      assert FgetsLines(l, LINE_SIZE) == [l];
    }
  }

  lemma TakeOneMore(before: seq<seq<char>>, pieces: seq<seq<char>>, k: nat)
    requires k < |pieces|
    ensures before + pieces[..k] + [pieces[k]] == before + pieces[..k + 1]
  {
    assert pieces[..k + 1] == pieces[..k] + [pieces[k]];
  }

  // ------------------------------------------------------------ process

  /** The writer process. Its state is the text of every `process_line`
      call so far, in order, and whether its FIFO descriptor is open; the
      commands it has issued follow from the lines (`Commands`). */
  class Writer {
    var processed: seq<seq<char>>
    var fifoOpen: bool

    function Commands(): seq<seq<char>>
      reads this
    {
      Issued(processed)
    }

    constructor ()
      ensures processed == [] && !fifoOpen
    {
      processed := [];
      fifoOpen := false;
    }

    /** `process_line`. */
    method Line(line: seq<char>)
      modifies this
      ensures processed == old(processed) + [line]
      ensures fifoOpen == old(fifoOpen)
    {
      processed := processed + [line];
    }

    /** The `fgets` loop over the data file. */
    method DataFile(openOk: bool, lockOk: bool, fdopenOk: bool, contents: seq<char>)
      modifies this
      ensures processed == old(processed) + (if openOk && lockOk && fdopenOk then FgetsLines(contents, LINE_SIZE) else [])
      ensures fifoOpen == old(fifoOpen)
    {
      if !openOk || !lockOk || !fdopenOk {
        assert processed + [] == processed;
        return;
      }
      ghost var pieces := FgetsLines(contents, LINE_SIZE);
      var rest := contents;
      ghost var k := 0;
      while rest != []
        invariant k <= |pieces| && FgetsLines(rest, LINE_SIZE) == pieces[k..]
        invariant processed == old(processed) + pieces[..k]
        invariant fifoOpen == old(fifoOpen)
        decreases |rest|
      {
        var n := PieceLength(rest, LINE_SIZE);
        FgetsNext(rest, n, pieces, k, LINE_SIZE);
        Line(rest[..n]);
        TakeOneMore(old(processed), pieces, k);
        rest := rest[n..];
        k := k + 1;
      }
      assert pieces[..k] == pieces;
    }

    /** The FIFO loop. Returns the number of events consumed. */
    method Fifo(openOk: bool, events: seq<FifoEvent>) returns (consumed: nat)
      modifies this
      ensures !openOk ==> processed == old(processed) && consumed == 0
      ensures openOk ==> processed == old(processed) + FifoRun(events).0
      ensures openOk ==> (fifoOpen <==> !FifoRun(events).1)
    {
      fifoOpen := openOk;
      consumed := 0;
      if !openOk {
        return;
      }
      while consumed < |events|
        invariant consumed <= |events|
        invariant fifoOpen
        invariant processed + FifoRun(events[consumed..]).0 == old(processed) + FifoRun(events).0
        invariant FifoRun(events).1 == FifoRun(events[consumed..]).1
      {
        var e := events[consumed];
        FifoStep(events, consumed);
        match e {
          case Data(bytes) =>
            Line(bytes);
          case Eof(reopenOk) =>
            if !reopenOk {
              fifoOpen := false;
              assert processed + [] == processed;
              consumed := consumed + 1;
              return;
            }
          case ReadError =>
        }
        consumed := consumed + 1;
      }
      assert events[consumed..] == [];
      assert processed + [] == processed;
    }
  }

  /** The writer's commands: reading a data file issues one command per
      parsing line of it, and reading the FIFO one per parsing read. */
  lemma WriterCommands(before: seq<seq<char>>, contents: seq<char>, events: seq<FifoEvent>)
    ensures Issued(before + FgetsLines(contents, LINE_SIZE)) == Issued(before) + DataFileRun(true, true, true, contents)
    ensures Issued(before + FifoRun(events).0) == Issued(before) + FifoCommands(events)
  {
    IssuedAppend(before, FgetsLines(contents, LINE_SIZE));
    IssuedAppend(before, FifoRun(events).0);
  }
}
