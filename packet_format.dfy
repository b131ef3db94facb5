/** The device's packet formatter. A packet is an operation code and three
    unsigned 16-bit coordinates in hundredths. `get_formatted_data` copies
    the packet's seven packed bytes into a shared segment and renders it,
    through `format_data_struct`, into one static 50-character buffer as
    `<op>: x <x/100> y <y/100> z <z/100>` with two decimals each; every
    call returns that same buffer. */
module PacketFormat {
  import opened Text
  import opened Numbers
  import StoreWriter

  /** Size of the static text buffer. */
  const MAX_DATA_LENGTH: nat := 50

  /** Size of the packed packet: one byte and three 16-bit fields. */
  const PACKET_SIZE: nat := 7

  type byte = b: int | 0 <= b < 0x100
  type u16 = v: int | 0 <= v < 0x1_0000

  datatype Packet = Packet(opCode: byte, x: u16, y: u16, z: u16)

  /** `%c` of the operation code. */
  function OpChar(b: byte): char {
    b as char
  }

  // ------------------------------------------------------------ hundredths

  /** `%.2f` of `v / 100.0`: the whole part without padding, a point, and
      the remainder as two digits. A `uint16_t` divided by 100.0 is printed
      exactly, so this is integer arithmetic. */
  function Hundredths(v: u16): (r: seq<char>)
    ensures 4 <= |r| <= 6 && r[|r| - 3] == '.'
  {
    assert Pow10(3) == 1000;
    NatStrLength(v / 100, 3);
    NatStr(v / 100) + ['.', DigitChar(v % 100 / 10), DigitChar(v % 10)]
  }

  /** The hundredths text is the canonical text of the decimal `v / 100`. */
  lemma HundredthsRender(v: u16)
    ensures Hundredths(v) == Render(Decimal(v, 2))
  {
    var lo := [DigitChar(v % 100 / 10), DigitChar(v % 10)];
    if v < 100 {
      SmallMagnitude(v);
      assert v / 100 == 0 && v % 100 / 10 == v / 10;
      PointAtTwo(NatStr(0), lo[0], lo[1]);
    } else {
      LargeMagnitude(v);
      PointAtTwo(NatStr(v / 100), lo[0], lo[1]);
    }
    assert Render(Decimal(v, 2)) == PointAt(Magnitude(Decimal(v, 2)), 2);
  }

  lemma SmallMagnitude(v: nat)
    requires v < 100
    ensures Magnitude(Decimal(v, 2)) == ['0', DigitChar(v / 10), DigitChar(v % 10)]
  {
    if v < 10 {
      assert NatStr(v) == [DigitChar(v)];
    } else {
      assert NatStr(v / 10) == [DigitChar(v / 10)];
      assert NatStr(v) == NatStr(v / 10) + [DigitChar(v % 10)];
    }
  }

  lemma LargeMagnitude(v: nat)
    requires v >= 100
    ensures Magnitude(Decimal(v, 2)) == NatStr(v) == NatStr(v / 100) + [DigitChar(v % 100 / 10), DigitChar(v % 10)]
  {
    LastTwoDigits(v);
  }

  lemma PointAtTwo(w: seq<char>, a: char, b: char)
    requires w != [] && AllDigits(w + [a, b])
    ensures PointAt(w + [a, b], 2) == w + ['.', a, b]
  {
    var ds := w + [a, b];
    assert ds[..|ds| - 2] == w && ds[|ds| - 2..] == [a, b];
  }

  /** The last two digits of a number of three or more digits. */
  lemma LastTwoDigits(v: nat)
    requires v >= 100
    ensures NatStr(v) == NatStr(v / 100) + [DigitChar(v % 100 / 10), DigitChar(v % 10)]
  {
    assert v / 10 / 10 == v / 100 && v / 10 % 10 == v % 100 / 10;
    assert NatStr(v) == NatStr(v / 10) + [DigitChar(v % 10)];
  }

  /** Reading a hundredths text back with `%lf` gives the value exactly. */
  lemma HundredthsReadBack(v: u16, rest: seq<char>)
    requires EndsNumber(rest)
    ensures ScanNumber(Hundredths(v) + rest) == Some((Decimal(v, 2), rest))
  {
    HundredthsRender(v);
    ScanRender(Decimal(v, 2), rest);
  }

  /** 500 hundredths print as `5.00`, 7 as `0.07`, the largest value as
      `655.35`. */
  lemma HundredthsExamples()
    ensures Hundredths(500) == "5.00"
    ensures Hundredths(7) == "0.07"
    ensures Hundredths(65535) == "655.35"
  {
    assert NatStr(5) == "5";
    assert NatStr(0) == "0";
    assert NatStr(655) == NatStr(65) + ['5'];
    assert NatStr(65) == NatStr(6) + ['5'];
  }

  // ------------------------------------------------------------ text

  /** The text `format_data_struct` asks `snprintf` for. */
  function FormatText(p: Packet): (t: seq<char>)
    ensures 23 <= |t| <= 29 && t[0] == OpChar(p.opCode)
  {
    [OpChar(p.opCode)] + ": x " + Hundredths(p.x) + " y " + Hundredths(p.y) + " z " + Hundredths(p.z)
  }

  /** `snprintf(buf, size, ...)`: at most `size - 1` characters of the text,
      then a NUL. */
  function Snprintf(t: seq<char>, size: nat): (r: seq<char>)
    requires size >= 1
    ensures 1 <= |r| <= size && r[|r| - 1] == NUL
    ensures |t| < size ==> r == t + [NUL]
    ensures |t| >= size ==> r == t[..size - 1] + [NUL]
  {
    (if |t| < size then t else t[..size - 1]) + [NUL]
  }

  /** The text always fits the 50-character buffer: it is stored whole and
      NUL-terminated. */
  lemma NeverTruncated(p: Packet)
    ensures Snprintf(FormatText(p), MAX_DATA_LENGTH) == FormatText(p) + [NUL]
    ensures |FormatText(p)| + 1 < MAX_DATA_LENGTH
  {
  }

  /** Apart from its operation code the text holds no NUL: with a non-zero
      code the stored C string is the whole text. */
  lemma TextNoNul(p: Packet)
    requires p.opCode != 0
    ensures NUL !in FormatText(p)
  {
    HundredthsChars(p.x);
    HundredthsChars(p.y);
    HundredthsChars(p.z);
  }

  lemma HundredthsChars(v: u16)
    ensures NUL !in Hundredths(v)
  {
    var h := Hundredths(v);
    assert forall i :: 0 <= i < |h| - 3 ==> h[i] == NatStr(v / 100)[i];
    assert forall i :: 0 <= i < |h| - 3 ==> IsDigit(h[i]);
  }

  /** The text is the coordinate part of a stored record: after the code
      and a colon come the three labelled values, and the record parser
      reads back exactly the packet's coordinates in hundredths. */
  lemma TextIsRecordTail(p: Packet)
    ensures FormatText(p) == [OpChar(p.opCode), ':'] + StoreWriter.CoordsText(Decimal(p.x, 2), Decimal(p.y, 2), Decimal(p.z, 2))
    ensures StoreWriter.ParseCoords(FormatText(p)[2..]) == Some((Decimal(p.x, 2), Decimal(p.y, 2), Decimal(p.z, 2), []))
  {
    var c := StoreWriter.CoordsText(Decimal(p.x, 2), Decimal(p.y, 2), Decimal(p.z, 2));
    TextShape(p);
    DropHead(FormatText(p), OpChar(p.opCode), c);
    StoreWriter.CoordsRoundTrip(Decimal(p.x, 2), Decimal(p.y, 2), Decimal(p.z, 2), []);
  }

  lemma TextShape(p: Packet)
    ensures FormatText(p) == [OpChar(p.opCode), ':'] + StoreWriter.CoordsText(Decimal(p.x, 2), Decimal(p.y, 2), Decimal(p.z, 2))
  {
    HundredthsRender(p.x);
    HundredthsRender(p.y);
    HundredthsRender(p.z);
    Layout(OpChar(p.opCode), Hundredths(p.x), Hundredths(p.y), Hundredths(p.z));
  }

  lemma Layout(o: char, hx: seq<char>, hy: seq<char>, hz: seq<char>)
    ensures [o] + ": x " + hx + " y " + hy + " z " + hz
         == [o, ':'] + (([' ', 'x', ' '] + hx) + ([' ', 'y', ' '] + hy) + ([' ', 'z', ' '] + hz))
  {
  }

  lemma DropHead(t: seq<char>, o: char, c: seq<char>)
    requires t == [o, ':'] + c
    ensures t[2..] == c + []
  {
  }

  /** The documented example packet `{ 'D', 100, 200, 300 }`. */
  lemma DocumentedExample()
    ensures FormatText(Packet('D' as byte, 100, 200, 300)) == "D: x 1.00 y 2.00 z 3.00"
  {
    ExampleUnits();
  }

  lemma ExampleUnits()
    ensures Hundredths(100) == "1.00" && Hundredths(200) == "2.00" && Hundredths(300) == "3.00"
  {
    WholeUnits(100, 1);
    WholeUnits(200, 2);
    WholeUnits(300, 3);
  }

  /** A whole number of units below ten is printed as that digit and `.00`. */
  lemma WholeUnits(v: u16, w: nat)
    requires w < 10 && v as int == 100 * w
    ensures Hundredths(v) == [DigitChar(w)] + ".00"
  {
    assert v / 100 == w && v % 100 == 0 && v % 10 == 0;
  }

  // ------------------------------------------------------------ bytes

  /** The packed layout: the code, then each coordinate low byte first. */
  function PacketBytes(p: Packet): (bs: seq<byte>)
    ensures |bs| == PACKET_SIZE && bs[0] == p.opCode
  {
    [p.opCode, p.x % 0x100, p.x / 0x100, p.y % 0x100, p.y / 0x100, p.z % 0x100, p.z / 0x100]
  }

  /** Reading a packet back from its seven bytes. */
  function DecodePacket(bs: seq<byte>): Packet
    requires |bs| == PACKET_SIZE
  {
    Packet(bs[0], Word(bs[1], bs[2]), Word(bs[3], bs[4]), Word(bs[5], bs[6]))
  }

  /** A 16-bit value from its low and high bytes. */
  function Word(lo: byte, hi: byte): u16 {
    var v: int := lo as int + 0x100 * hi as int;
    v
  }

  /** The segment holds exactly the packet: decoding its bytes gives the
      packet back, and every seven bytes are some packet's layout. */
  lemma BytesRoundTrip(p: Packet, bs: seq<byte>)
    requires |bs| == PACKET_SIZE
    ensures DecodePacket(PacketBytes(p)) == p
    ensures PacketBytes(DecodePacket(bs)) == bs
  {
    U16Bytes(p.x);
    U16Bytes(p.y);
    U16Bytes(p.z);
    BytesU16(bs[1], bs[2]);
    BytesU16(bs[3], bs[4]);
    BytesU16(bs[5], bs[6]);
  }

  lemma U16Bytes(v: u16)
    ensures v % 0x100 + 0x100 * (v / 0x100) == v
  {
  }

  lemma BytesU16(lo: byte, hi: byte)
    ensures Word(lo, hi) % 0x100 == lo && Word(lo, hi) / 0x100 == hi
  {
  }

  // ------------------------------------------------------------ buffers

  /** The formatter's process state: the static text buffer, the attached
      shared segment, and whether the process has exited. */
  class Formatter {
    const formatted: array<char>
    const segment: array<byte>
    var attached: bool
    var exited: bool

    predicate Valid()
      reads this
    {
      formatted.Length == MAX_DATA_LENGTH && segment.Length == PACKET_SIZE
    }

    constructor ()
      ensures Valid() && !attached && !exited
      ensures fresh(formatted) && fresh(segment)
    {
      formatted := new char[MAX_DATA_LENGTH](_ => NUL);
      segment := new byte[PACKET_SIZE](_ => 0);
      attached := false;
      exited := false;
    }

    /** `format_data_struct`: `snprintf` into the static buffer. The text
        and its NUL are written at the front; the rest of the buffer keeps
        what it held. */
    method FormatDataStruct(p: Packet)
      requires Valid()
      modifies formatted
      ensures formatted[..|FormatText(p)| + 1] == FormatText(p) + [NUL]
      ensures formatted[|FormatText(p)| + 1..] == old(formatted[|FormatText(p)| + 1..])
    {
      NeverTruncated(p);
      var s := Snprintf(FormatText(p), MAX_DATA_LENGTH);
      var i := 0;
      while i < |s|
        invariant 0 <= i <= |s|
        invariant formatted[..i] == s[..i]
        invariant formatted[|s|..] == old(formatted[|s|..])
      {
        formatted[i] := s[i];
        i := i + 1;
      }
    }

    /** The `memcpy` of the packet into the attached segment. */
    method CopyPacket(p: Packet)
      requires Valid()
      modifies segment
      ensures segment[..] == PacketBytes(p)
    {
      var bs := PacketBytes(p);
      var i := 0;
      while i < PACKET_SIZE
        invariant 0 <= i <= PACKET_SIZE
        invariant segment[..i] == bs[..i]
      {
        segment[i] := bs[i];
        i := i + 1;
      }
    }

    /** `get_formatted_data`: create and attach the segment (a failure of
        either ends the process), copy the packet's bytes into it, format
        the packet and return the static buffer. */
    method GetFormattedData(p: Packet, getOk: bool, attachOk: bool) returns (r: Option<array<char>>)
      requires Valid() && !exited
      modifies this, formatted, segment
      ensures Valid()
      ensures !(getOk && attachOk) ==> r.None? && exited && attached == old(attached)
      ensures !(getOk && attachOk) ==> formatted[..] == old(formatted[..]) && segment[..] == old(segment[..])
      ensures getOk && attachOk ==> r == Some(formatted) && attached && !exited
      ensures getOk && attachOk ==> segment[..] == PacketBytes(p)
      ensures getOk && attachOk ==> formatted[..|FormatText(p)| + 1] == FormatText(p) + [NUL]
      ensures getOk && attachOk && p.opCode != 0 ==> CStr(formatted[..]) == FormatText(p)
    {
      if !getOk || !attachOk {
        exited := true;
        return None;
      }
      attached := true;
      CopyPacket(p);
      FormatDataStruct(p);
      if p.opCode != 0 {
        TextNoNul(p);
        StoredText(formatted[..], FormatText(p));
      }
      r := Some(formatted);
    }
  }

  /** A buffer that begins with a NUL-free text and a NUL holds that text
      as its C string. */
  lemma StoredText(buf: seq<char>, t: seq<char>)
    requires |t| < |buf| && buf[..|t| + 1] == t + [NUL] && NUL !in t
    ensures CStr(buf) == t
  {
    assert buf[..|t|] == t && buf[|t|] == NUL;
    IndexOfUnique(buf, NUL, |t|);
  }

  /** Two calls in a row return the same buffer, which then shows only the
      second packet's text: every returned string aliases one static
      buffer. */
  method FormatTwice(f: Formatter, p: Packet, q: Packet) returns (first: array<char>, second: array<char>)
    requires f.Valid() && !f.exited && q.opCode != 0
    modifies f, f.formatted, f.segment
    ensures first == second == f.formatted
    ensures CStr(first[..]) == FormatText(q)
  {
    var r1 := f.GetFormattedData(p, true, true);
    var r2 := f.GetFormattedData(q, true, true);
    first := r1.value;
    second := r2.value;
  }
}
