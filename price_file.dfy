/** The two inputs of the price updater: the prices file, read line by line
    with `fgets` and `sscanf(line, "%99[^,], %lf", ...)`, and the rows the
    `sqlite` tool prints for `SELECT location, price FROM Prices;`, read
    with `fscanf(pipe, "%99[^|]|%lf\n", ...)`. Both loaders collect their
    entries into an array that starts with room for ten and doubles
    whenever it is full. Prices are exact reals: what `%lf` reads from a
    plain decimal. */
module PriceFile {
  import opened Text
  import opened Numbers

  /** Bytes of a line buffer and of a `city` field. */
  const MAX_LINE_LENGTH: nat := 100
  /** The field width of `%99[`: one byte less than the `city` field. */
  const CITY_WIDTH: nat := 99
  const INITIAL_CAPACITY: nat := 10

  /** One `CityPrice` record: the city as a C string and its price. */
  datatype CityPrice = CityPrice(city: seq<char>, price: real)

  /** What an array slot holds before anything is stored in it. */
  const BLANK: CityPrice := CityPrice([], 0.0)

  // ------------------------------------------------------------ scanning

  /** How many bytes a `%W[^stop]` conversion takes from `t`: bytes other
      than `stop`, at most `width` of them. */
  function Field(t: seq<char>, stop: char, width: nat): (n: nat)
    ensures n <= |t| && n <= width
    ensures stop !in t[..n]
    ensures n < |t| && n < width ==> t[n] == stop
  {
    var k := IndexOf(t, stop);
    if k < width then k else width
  }

  /** `%lf` always consumes something when it succeeds. */
  lemma ScanNumberRest(s: seq<char>)
    ensures ScanNumber(s).Some? ==> |ScanNumber(s).value.1| < |s|
  {
    var t := SkipSpace(s);
    if t != [] && (t[0] == '-' || t[0] == '+') {
      UnsignedRest(t[1..], t[0] == '-');
    } else {
      UnsignedRest(t, false);
    }
  }

  lemma UnsignedRest(u: seq<char>, negative: bool)
    ensures ScanUnsigned(u, negative).Some? ==> |ScanUnsigned(u, negative).value.1| < |u|
  {
  }

  /** The price conversion after a city that matched: the record, when a
      number follows. */
  function Priced(city: seq<char>, after: seq<char>): (r: Option<CityPrice>)
    ensures r.Some? ==> r.value.city == city
  {
    match ScanNumber(after)
    case None => None
    case Some((d, _)) => Some(CityPrice(city, d.Value()))
  }

  /** `sscanf(line, "%99[^,], %lf", city, &price) == 2` on the C string
      `t` of a line: one to 99 bytes up to a comma, the comma, optional
      whitespace and a number. The city keeps every byte before the comma,
      spaces included. */
  function ParseFileLine(t: seq<char>): (r: Option<CityPrice>)
    ensures r.Some? ==> 1 <= |r.value.city| <= CITY_WIDTH && |r.value.city| < |t|
    ensures r.Some? ==> r.value.city == t[..|r.value.city|] && t[|r.value.city|] == ','
    ensures r.Some? ==> ',' !in r.value.city
  {
    var n := Field(t, ',', CITY_WIDTH);
    if n == 0 || n == |t| || t[n] != ',' then None
    else Priced(t[..n], t[n + 1..])
  }

  /** `sscanf(line, "%[^,],%lf", city, &price) == 2` (the update-only
      tool): the same without a field width and without the whitespace
      directive, which `%lf` makes up for by skipping whitespace itself. */
  function ParseTestLine(t: seq<char>): (r: Option<CityPrice>)
    ensures r.Some? ==> 1 <= |r.value.city| < |t|
    ensures r.Some? ==> r.value.city == t[..|r.value.city|] && t[|r.value.city|] == ','
  {
    var n := IndexOf(t, ',');
    if n == 0 || n == |t| then None
    else Priced(t[..n], t[n + 1..])
  }

  /** The "trim" after a successful parse: `city[strnlen(city, 100)] = '\0'`
      stores a terminator where the first terminator already is, so the
      buffer keeps every byte, trailing spaces included. */
  function Trim(buffer: seq<char>): (r: seq<char>)
    requires NUL in buffer
    ensures r == buffer
  {
    buffer[IndexOf(buffer, NUL) := NUL]
  }

  /** `strncpy(entry->city, city, 100); entry->city[99] = '\0';` on a city
      `fscanf` read with `%99[`: the copy reads back as the C string read,
      which is what the loader stores. */
  lemma StoredCity(scanned: seq<char>)
    requires |scanned| <= CITY_WIDTH
    ensures CStr(Strncpy(scanned, MAX_LINE_LENGTH)[CITY_WIDTH := NUL]) == CStr(scanned)
  {
    var c := CStr(scanned);
    var copy := Strncpy(scanned, MAX_LINE_LENGTH);
    assert copy == c + [NUL] + Zeros(MAX_LINE_LENGTH - |c| - 1);
    CStrOfTerminated(c, Zeros(MAX_LINE_LENGTH - |c| - 1));
    assert copy[CITY_WIDTH := NUL] == copy;
  }

  /** The price conversion and the trailing `\n` directive after a city
      that matched: the record and the output left. */
  function PricedRow(scanned: seq<char>, after: seq<char>): (r: Option<(CityPrice, seq<char>)>)
    requires |scanned| <= CITY_WIDTH
    ensures r.Some? ==> |r.value.1| < |after| && r.value.0.city == CStr(scanned)
  {
    ScanNumberRest(after);
    match ScanNumber(after)
    case None => None
    case Some((d, rest)) => Some((CityPrice(CStr(scanned), d.Value()), SkipSpace(rest)))
  }

  /** One `fscanf(pipe, "%99[^|]|%lf\n", city, &price) == 2` on the rest
      of the tool's output: the city, the price and the output after the
      whitespace that follows the number. */
  function ScanRow(s: seq<char>): (r: Option<(CityPrice, seq<char>)>)
    ensures r.Some? ==> |r.value.1| < |s|
    ensures r.Some? ==> |r.value.0.city| <= CITY_WIDTH && NUL !in r.value.0.city
  {
    var n := Field(s, '|', CITY_WIDTH);
    if n == 0 || n == |s| || s[n] != '|' then None
    else PricedRow(s[..n], s[n + 1..])
  }

  /** Every row the `fscanf` loop reads before its first mismatch. */
  function DbRows(s: seq<char>): seq<CityPrice>
    decreases |s|
  {
    match ScanRow(s)
    case None => []
    case Some((e, rest)) => [e] + DbRows(rest)
  }

  lemma DbRowsNext(s: seq<char>, e: CityPrice, rest: seq<char>)
    requires ScanRow(s) == Some((e, rest))
    ensures DbRows(s) == [e] + DbRows(rest)
  {
  }

  // ------------------------------------------------------------ file entries

  /** The entry a buffer contributes: none when its line does not parse. */
  function Kept(parse: seq<char> -> Option<CityPrice>, piece: seq<char>): seq<CityPrice> {
    match parse(CStr(piece))
    case None => []
    case Some(e) => [e]
  }

  /** The entries of successive `fgets` buffers, in order. */
  function Entries(parse: seq<char> -> Option<CityPrice>, pieces: seq<seq<char>>): seq<CityPrice> {
    if pieces == [] then []
    else Entries(parse, pieces[..|pieces| - 1]) + Kept(parse, pieces[|pieces| - 1])
  }

  lemma EntriesNext(parse: seq<char> -> Option<CityPrice>, pieces: seq<seq<char>>, k: nat)
    requires k < |pieces|
    ensures Entries(parse, pieces[..k + 1]) == Entries(parse, pieces[..k]) + Kept(parse, pieces[k])
  {
    assert pieces[..k + 1][..k] == pieces[..k];
  }

  lemma {:induction false} EntriesAppend(parse: seq<char> -> Option<CityPrice>, a: seq<seq<char>>, b: seq<seq<char>>)
    ensures Entries(parse, a + b) == Entries(parse, a) + Entries(parse, b)
    decreases |b|
  {
    if b == [] {
      assert a + b == a;
    } else {
      var c := b[..|b| - 1];
      assert (a + b)[..|a + b| - 1] == a + c;
      assert (a + b)[|a + b| - 1] == b[|b| - 1];
      EntriesAppend(parse, a, c);
    }
  }

  lemma EntriesSplit(parse: seq<char> -> Option<CityPrice>, pieces: seq<seq<char>>, k: nat)
    requires k <= |pieces|
    ensures Entries(parse, pieces) == Entries(parse, pieces[..k]) + Entries(parse, pieces[k..])
  {
    var a, b := pieces[..k], pieces[k..];
    assert a + b == pieces;
    EntriesAppend(parse, a, b);
  }

  /** The entries `load_file_data` collects from the file contents. */
  function FileEntries(contents: seq<char>): seq<CityPrice> {
    Entries(ParseFileLine, FgetsLines(contents, MAX_LINE_LENGTH))
  }

  /** The lines the update-only tool acts on. */
  function TestEntries(contents: seq<char>): seq<CityPrice> {
    Entries(ParseTestLine, FgetsLines(contents, MAX_LINE_LENGTH))
  }

  // ------------------------------------------------------------ the loaders

  /** The capacities the loaders go through: ten, doubled any number of times. */
  predicate Doubled(c: nat)
    decreases c
  {
    c == INITIAL_CAPACITY || (c > INITIAL_CAPACITY && c % 2 == 0 && Doubled(c / 2))
  }

  /** The check at the top of each loop turn: `if (count >= capacity)`
      the capacity doubles and `realloc` moves the entries over; either way
      there is room for one more entry afterwards. */
  method Reserve(data: array<CityPrice>, count: nat) returns (room: array<CityPrice>)
    requires count <= data.Length && Doubled(data.Length)
    ensures count < room.Length && Doubled(room.Length)
    ensures room == data || (fresh(room) && data.Length == count && room.Length == 2 * count)
    ensures room[..count] == data[..count]
  {
    if count < data.Length {
      return data;
    }
    room := new CityPrice[2 * data.Length](_ => BLANK);
    forall i | 0 <= i < count {
      room[i] := data[i];
    }
  }

  lemma AppendStep<T>(done: seq<T>, e: T, after: seq<T>, rest: seq<T>)
    requires rest == [e] + after
    ensures (done + [e]) + after == done + rest
  {
  }

  /** One turn of the `load_file_data` loop on the buffer `fgets` filled
      with `piece`: the capacity check, then the parse straight into the
      next free slot, which counts only when both conversions succeed. */
  method ReadPriceLine(line: array<char>, piece: seq<char>, data: array<CityPrice>, count: nat)
    returns (room: array<CityPrice>, size: nat)
    requires |piece| < line.Length
    requires count <= data.Length && Doubled(data.Length)
    requires data.Length == INITIAL_CAPACITY || data.Length <= 2 * count
    modifies line, data
    ensures size <= room.Length && Doubled(room.Length)
    ensures room.Length == INITIAL_CAPACITY || room.Length <= 2 * size
    ensures room == data || fresh(room)
    ensures room[..size] == old(data[..count]) + Kept(ParseFileLine, piece)
  {
    var parsed := ScanLine(line, piece);
    room := Reserve(data, count);
    size := count;
    if parsed.Some? {
      room[count] := parsed.value;
      size := count + 1;
      assert room[..size] == room[..count] + [parsed.value];
    }
  }

  /** `fgets` filling the line buffer with `piece`, then the `sscanf` of
      that buffer. */
  method ScanLine(line: array<char>, piece: seq<char>) returns (parsed: Option<CityPrice>)
    requires |piece| < line.Length
    modifies line
    ensures parsed == ParseFileLine(CStr(piece))
  {
    Fgets(line, piece);
    CStrOfBuffer(piece, line[|piece| + 1..]);
    parsed := ParseFileLine(CStr(line[..]));
  }

  /** `load_file_data`: 1 when the file cannot be opened; otherwise 0 and
      the parsed entries in file order. Capacity is checked before every
      line, parsed or not, so it stays within twice the count once it has
      grown at all. */
  method LoadFileData(fileOk: bool, contents: seq<char>) returns (status: int, data: array<CityPrice>, count: nat)
    ensures fresh(data)
    ensures !fileOk ==> status == 1 && count == 0
    ensures fileOk ==> status == 0 && count <= data.Length && data[..count] == FileEntries(contents)
    ensures fileOk ==> Doubled(data.Length) && (data.Length == INITIAL_CAPACITY || data.Length <= 2 * count)
  {
    if !fileOk {
      data := new CityPrice[0];
      return 1, data, 0;
    }
    count := 0;
    data := new CityPrice[INITIAL_CAPACITY](_ => BLANK);
    var line := new char[MAX_LINE_LENGTH](_ => NUL);
    ghost var pieces := FgetsLines(contents, MAX_LINE_LENGTH);
    var rest := contents;
    ghost var k := 0;
    while rest != []
      invariant k <= |pieces| && FgetsLines(rest, MAX_LINE_LENGTH) == pieces[k..]
      invariant fresh(data) && fresh(line) && line.Length == MAX_LINE_LENGTH
      invariant count <= data.Length && data[..count] == Entries(ParseFileLine, pieces[..k])
      invariant Doubled(data.Length) && (data.Length == INITIAL_CAPACITY || data.Length <= 2 * count)
      decreases |rest|
    {
      var n := PieceLength(rest, MAX_LINE_LENGTH);
      FgetsNext(rest, n, pieces, k, MAX_LINE_LENGTH);
      data, count := ReadPriceLine(line, rest[..n], data, count);
      EntriesNext(ParseFileLine, pieces, k);
      rest := rest[n..];
      k := k + 1;
    }
    assert pieces[..k] == pieces;
    return 0, data, count;
  }

  /** One turn of the `load_db_data` loop: the capacity check, then the
      row stored in the next free slot. */
  method Append(data: array<CityPrice>, count: nat, entry: CityPrice) returns (room: array<CityPrice>, size: nat)
    requires count <= data.Length && Doubled(data.Length)
    requires data.Length == INITIAL_CAPACITY || data.Length < 2 * count
    modifies data
    ensures size == count + 1 && size <= room.Length && Doubled(room.Length)
    ensures room.Length == INITIAL_CAPACITY || room.Length < 2 * size
    ensures room == data || fresh(room)
    ensures room[..size] == old(data[..count]) + [entry]
  {
    room := Reserve(data, count);
    room[count] := entry;
    size := count + 1;
    assert room[..size] == room[..count] + [entry];
  }

  /** The loop condition of `load_db_data`: the next row, and what reading
      it leaves for later. */
  method NextRow(rest: seq<char>) returns (row: Option<(CityPrice, seq<char>)>)
    ensures row.None? ==> DbRows(rest) == []
    ensures row.Some? ==> |row.value.1| < |rest| && DbRows(rest) == [row.value.0] + DbRows(row.value.1)
  {
    row := ScanRow(rest);
  }

  /** `load_db_data`: 1 when the tool cannot be started; otherwise 0 and
      every row read before the first one that does not match. */
  method LoadDbData(pipeOk: bool, output: seq<char>) returns (status: int, data: array<CityPrice>, count: nat)
    ensures fresh(data)
    ensures !pipeOk ==> status == 1 && count == 0
    ensures pipeOk ==> status == 0 && count <= data.Length && data[..count] == DbRows(output)
    ensures pipeOk ==> Doubled(data.Length) && (data.Length == INITIAL_CAPACITY || data.Length < 2 * count)
  {
    if !pipeOk {
      data := new CityPrice[0];
      return 1, data, 0;
    }
    count := 0;
    data := new CityPrice[INITIAL_CAPACITY](_ => BLANK);
    var rest := output;
    var row := NextRow(rest);
    while row.Some?
      invariant row.None? ==> DbRows(rest) == []
      invariant row.Some? ==> |row.value.1| < |rest| && DbRows(rest) == [row.value.0] + DbRows(row.value.1)
      invariant fresh(data) && count <= data.Length && data[..count] + DbRows(rest) == DbRows(output)
      invariant Doubled(data.Length) && (data.Length == INITIAL_CAPACITY || data.Length < 2 * count)
      decreases |rest|
    {
      var (entry, after) := row.value;
      ghost var done := data[..count];
      data, count := Append(data, count, entry);
      AppendStep(done, entry, DbRows(after), DbRows(rest));
      rest := after;
      row := NextRow(rest);
    }
    assert data[..count] + [] == data[..count];
    return 0, data, count;
  }

  // ------------------------------------------------------------ properties

  lemma SkipSpaces(gap: seq<char>, x: seq<char>)
    requires forall c <- gap :: IsSpace(c)
    requires x == [] || !IsSpace(x[0])
    ensures SkipSpace(gap + x) == x
    decreases |gap|
  {
    if gap == [] {
      assert gap + x == x;
    } else {
      assert (gap + x)[1..] == gap[1..] + x;
      SkipSpaces(gap[1..], x);
    }
  }

  /** A line that is a city and a comma followed by anything is read as
      that city and whatever price follows, by both formats. */
  lemma LineSplit(t: seq<char>, city: seq<char>, after: seq<char>)
    requires 1 <= |city| <= CITY_WIDTH && ',' !in city
    requires t == city + [','] + after
    ensures ParseFileLine(t) == Priced(city, after)
    ensures ParseTestLine(t) == Priced(city, after)
  {
    assert t[..|city|] == city && t[|city|] == ',';
    assert t[|city| + 1..] == after;
    IndexOfUnique(t, ',', |city|);
  }

  lemma PricedOf(city: seq<char>, gap: seq<char>, d: Decimal, rest: seq<char>)
    requires forall c <- gap :: IsSpace(c)
    requires EndsNumber(rest)
    ensures Priced(city, gap + (Render(d) + rest)) == Some(CityPrice(city, d.Value()))
  {
    RenderedNumber(d);
    SkipSpaces(gap, Render(d) + rest);
    ScanNumberSkips(gap + (Render(d) + rest));
    ScanRender(d, rest);
  }

  /** A city, a comma, any whitespace and a price parse back as that city
      and price, whatever follows the number. */
  lemma FileLineOf(t: seq<char>, city: seq<char>, gap: seq<char>, d: Decimal, rest: seq<char>)
    requires 1 <= |city| <= CITY_WIDTH && ',' !in city
    requires forall c <- gap :: IsSpace(c)
    requires EndsNumber(rest)
    requires t == city + [','] + gap + Render(d) + rest
    ensures ParseFileLine(t) == Some(CityPrice(city, d.Value()))
    ensures ParseTestLine(t) == Some(CityPrice(city, d.Value()))
  {
    var after := gap + (Render(d) + rest);
    assert t == city + [','] + after;
    LineSplit(t, city, after);
    PricedOf(city, gap, d, rest);
  }

  /** A line with no comma among its first hundred bytes, or with one
      hundred bytes or more before the comma, is skipped. */
  lemma NoCommaSkipped(t: seq<char>)
    requires ',' !in t[..if |t| < MAX_LINE_LENGTH then |t| else MAX_LINE_LENGTH]
    ensures ParseFileLine(t) == None
  {
    var m := if |t| < MAX_LINE_LENGTH then |t| else MAX_LINE_LENGTH;
    var n := Field(t, ',', CITY_WIDTH);
    assert n < m ==> t[..m][n] == t[n];
  }

  /** On what one `fgets` into a 100-byte buffer can deliver, the two
      formats accept the same lines with the same results: with at most 99
      bytes the field width is never what stops the city. */
  lemma FormatsAgree(t: seq<char>)
    requires |t| <= CITY_WIDTH
    ensures ParseTestLine(t) == ParseFileLine(t)
  {
    assert Field(t, ',', CITY_WIDTH) == IndexOf(t, ',');
  }

  /** Every file entry has a city of 1 to 99 bytes with no comma and no NUL. */
  lemma {:induction false} FileCities(pieces: seq<seq<char>>)
    ensures forall e <- Entries(ParseFileLine, pieces) ::
      1 <= |e.city| <= CITY_WIDTH && ',' !in e.city && NUL !in e.city
  {
    if pieces != [] {
      var p := pieces[|pieces| - 1];
      FileCities(pieces[..|pieces| - 1]);
      match ParseFileLine(CStr(p))
      case None =>
      case Some(e) =>
        assert e.city == CStr(p)[..|e.city|];
        assert NUL !in e.city by {
          assert forall i :: 0 <= i < |e.city| ==> e.city[i] == CStr(p)[i];
        }
    }
  }

  /** A row as the `sqlite` tool prints it, and the text of several rows. */
  datatype Row = Row(location: seq<char>, price: Decimal)

  function RowText(r: Row): seq<char> {
    r.location + "|" + Render(r.price) + "\n"
  }

  function Dump(rows: seq<Row>): seq<char> {
    if rows == [] then [] else RowText(rows[0]) + Dump(rows[1..])
  }

  /** A location the loader reads back unchanged: one to 99 bytes, no `|`,
      no NUL, and not starting with whitespace, which the `\n` directive
      after the previous price would swallow. */
  predicate Readable(location: seq<char>) {
    1 <= |location| <= CITY_WIDTH && '|' !in location && NUL !in location && !IsSpace(location[0])
  }

  function Loaded(rows: seq<Row>): (es: seq<CityPrice>)
    ensures |es| == |rows|
  {
    if rows == [] then [] else [CityPrice(rows[0].location, rows[0].price.Value())] + Loaded(rows[1..])
  }

  lemma RowSplit(s: seq<char>, location: seq<char>, after: seq<char>)
    requires 1 <= |location| <= CITY_WIDTH && '|' !in location
    requires s == location + ['|'] + after
    ensures ScanRow(s) == PricedRow(location, after)
  {
    assert s[..|location|] == location && s[|location|] == '|';
    assert s[|location| + 1..] == after;
    IndexOfUnique(s, '|', |location|);
  }

  lemma PricedRowOf(location: seq<char>, d: Decimal, x: seq<char>)
    requires |location| <= CITY_WIDTH && NUL !in location
    requires x == [] || !IsSpace(x[0])
    ensures PricedRow(location, Render(d) + ("\n" + x)) == Some((CityPrice(location, d.Value()), x))
  {
    ScanRender(d, "\n" + x);
    assert SkipSpace("\n" + x) == x by {
      assert ("\n" + x)[1..] == x;
      if x != [] {
        SkipNoSpace(x);
      }
    }
    CStrOfPlain(location);
  }

  lemma ScanRowText(r: Row, x: seq<char>)
    requires Readable(r.location)
    requires x == [] || !IsSpace(x[0])
    ensures ScanRow(RowText(r) + x) == Some((CityPrice(r.location, r.price.Value()), x))
  {
    var after := Render(r.price) + ("\n" + x);
    assert RowText(r) + x == r.location + ['|'] + after;
    RowSplit(r.location + ['|'] + after, r.location, after);
    PricedRowOf(r.location, r.price, x);
  }

  /** Reading back what the tool prints for a table gives every row in
      order, each location and price unchanged. */
  lemma {:induction false} DumpRoundTrip(rows: seq<Row>)
    requires forall r <- rows :: Readable(r.location)
    ensures DbRows(Dump(rows)) == Loaded(rows)
  {
    if rows != [] {
      var x := Dump(rows[1..]);
      if rows[1..] != [] {
        DumpStart(rows[1..]);
      }
      ScanRowText(rows[0], x);
      DumpRoundTrip(rows[1..]);
      DbRowsNext(Dump(rows), CityPrice(rows[0].location, rows[0].price.Value()), x);
    }
  }

  lemma DumpStart(rows: seq<Row>)
    requires rows != [] && Readable(rows[0].location)
    ensures Dump(rows) != [] && Dump(rows)[0] == rows[0].location[0]
  {
  }

  /** A city of a hundred bytes or more without `|` stops the loader: no
      row from there on is loaded. */
  lemma LongCityStops(s: seq<char>)
    requires |s| > CITY_WIDTH && '|' !in s[..CITY_WIDTH + 1]
    ensures DbRows(s) == []
  {
    assert s[..CITY_WIDTH + 1][CITY_WIDTH] == s[CITY_WIDTH];
  }
}
