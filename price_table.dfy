/** The price updater proper: it brings the `Prices` table of the parking
    database in line with the prices file. Every city of the file is looked
    up with a `SELECT`; a changed price is updated and a missing city is
    inserted; then every city of the table as it was loaded before the
    updates that the file does not name is deleted. The table is a map from
    location to price and each `sqlite` command is its intended effect;
    whether a pipe opens or a command succeeds is an input of the model.
    Also here: the earlier update-only tool, which issues one `UPDATE` per
    file line and nothing else. */
module PriceTable {
  import opened Text
  import opened Numbers
  import opened PriceFile

  type Table = map<seq<char>, real>

  /** Whether a price is a whole number of hundredths. */
  predicate InCents(p: real) {
    (p * 100.0).Floor as real == p * 100.0
  }

  /** The price `%.2f` writes into a command: the nearest hundredth, a tie
      going to the even one. */
  function Rounded(p: real): (r: real)
    ensures InCents(r)
    ensures InCents(p) <==> r == p
    ensures -0.005 <= r - p <= 0.005
  {
    var n := NearestEven(p * 100.0);
    CentsBack(n);
    n as real / 100.0
  }

  /** A whole number of hundredths is whole again once scaled back. */
  lemma CentsBack(n: int)
    ensures (n as real / 100.0) * 100.0 == n as real
    ensures InCents(n as real / 100.0)
  {
  }

  /** A file price of 5.125 is written as 5.12 and 0.375 as 0.38 (ties to
      even); 5.1 stays 5.10. */
  lemma RoundedExamples()
    ensures Rounded(5.125) == 5.12 && !InCents(5.125)
    ensures Rounded(0.375) == 0.38
    ensures Rounded(5.1) == 5.1
  {
    assert (5.125 * 100.0).Floor == 512;
    assert (0.375 * 100.0).Floor == 37;
    assert (5.1 * 100.0).Floor == 510;
  }

  /** The effect of one `sqlite` command run through `system()`; its price
      is the one written into the command text. */
  datatype Command =
    | Update(city: seq<char>, price: real)
    | Insert(city: seq<char>, price: real)
    | Delete(city: seq<char>)

  /** What the per-entry `SELECT price FROM Prices WHERE location=...`
      pipe yields to `fscanf(pipe, "%lf", ...)`. */
  datatype Lookup = PipeFailed | Found(price: real) | Missing

  /** The table and every command issued so far, failed ones included. */
  datatype Db = Db(table: Table, log: seq<Command>)

  function Query(table: Table, city: seq<char>, pipeOk: bool): Lookup {
    if !pipeOk then PipeFailed else if city in table then Found(table[city]) else Missing
  }

  /** What a command does to the table when it succeeds. An `UPDATE` of a
      location the table does not hold changes nothing. */
  function Apply(table: Table, cmd: Command): (t: Table)
    ensures cmd.Delete? ==> t.Keys == table.Keys - {cmd.city}
    ensures cmd.Insert? ==> t.Keys == table.Keys + {cmd.city} && t[cmd.city] == cmd.price
    ensures cmd.Update? ==> t.Keys == table.Keys && (cmd.city in t ==> t[cmd.city] == cmd.price)
    ensures forall c <- table.Keys :: c != cmd.city ==> c in t && t[c] == table[c]
  {
    match cmd
    case Update(c, p) => if c in table then table[c := p] else table
    case Insert(c, p) => table[c := p]
    case Delete(c) => table - {c}
  }

  /** `system(command)`: the command is issued whether or not it succeeds;
      a failure is only reported. */
  function Issue(d: Db, cmd: Command, ok: bool): (r: Db)
    ensures r.log == d.log + [cmd]
    ensures r.table == if ok then Apply(d.table, cmd) else d.table
  {
    Db(if ok then Apply(d.table, cmd) else d.table, d.log + [cmd])
  }

  /** The database the tools talk to. */
  class Database {
    var table: Table
    var log: seq<Command>

    constructor (initial: Table)
      ensures table == initial && log == []
    {
      table := initial;
      log := [];
    }

    function State(): Db
      reads this
    {
      Db(table, log)
    }

    /** `popen` of a `SELECT price ... WHERE location='city'` and one `%lf`
        read from it: the price when the location is present. */
    method Select(city: seq<char>, pipeOk: bool) returns (found: Lookup)
      ensures !pipeOk ==> found == PipeFailed
      ensures pipeOk && city in table ==> found == Found(table[city])
      ensures pipeOk && city !in table ==> found == Missing
    {
      found := Query(table, city, pipeOk);
    }

    /** `system(command)`, with `ok` whether the command succeeds. */
    method System(cmd: Command, ok: bool) returns (result: int)
      modifies this
      ensures State() == Issue(old(State()), cmd, ok)
      ensures result == 0 <==> ok
    {
      log := log + [cmd];
      if ok {
        table := Apply(table, cmd);
        result := 0;
      } else {
        result := 1;
      }
    }
  }

  // ------------------------------------------------------------ update_prices

  /** The command `update_prices` issues for one entry after its lookup. */
  function Decide(found: Lookup, e: CityPrice): (r: Option<Command>)
    ensures r == None <==> found.PipeFailed? || found == Found(e.price)
    ensures found.Found? && found.price != e.price ==> r == Some(Update(e.city, Rounded(e.price)))
    ensures found.Missing? ==> r == Some(Insert(e.city, Rounded(e.price)))
  {
    match found
    case PipeFailed => None
    case Found(existing) => if existing != e.price then Some(Update(e.city, Rounded(e.price))) else None
    case Missing => Some(Insert(e.city, Rounded(e.price)))
  }

  function UpdateStep(d: Db, e: CityPrice, selectOk: bool, runOk: bool): Db {
    match Decide(Query(d.table, e.city, selectOk), e)
    case None => d
    case Some(cmd) => Issue(d, cmd, runOk)
  }

  /** `update_prices` over the entries, in order; `sel[i]` says whether
      the lookup pipe for entry `i` opens and `run[i]` whether its command,
      if any, succeeds. */
  function UpdateAll(d: Db, es: seq<CityPrice>, sel: seq<bool>, run: seq<bool>): Db
    requires |sel| == |es| && |run| == |es|
  {
    if es == [] then d
    else
      var n := |es| - 1;
      UpdateStep(UpdateAll(d, es[..n], sel[..n], run[..n]), es[n], sel[n], run[n])
  }

  lemma UpdateNext(d: Db, es: seq<CityPrice>, sel: seq<bool>, run: seq<bool>, i: nat)
    requires |sel| == |es| && |run| == |es| && i < |es|
    ensures UpdateAll(d, es[..i + 1], sel[..i + 1], run[..i + 1])
         == UpdateStep(UpdateAll(d, es[..i], sel[..i], run[..i]), es[i], sel[i], run[i])
  {
    assert es[..i + 1][..i] == es[..i];
    assert sel[..i + 1][..i] == sel[..i];
    assert run[..i + 1][..i] == run[..i];
  }

  /** One turn of the `update_prices` loop. */
  method UpdateEntry(db: Database, e: CityPrice, selectOk: bool, runOk: bool)
    modifies db
    ensures db.State() == UpdateStep(old(db.State()), e, selectOk, runOk)
  {
    var found := db.Select(e.city, selectOk);
    if found.Found? {
      if found.price != e.price {
        var _ := db.System(Update(e.city, Rounded(e.price)), runOk);
      }
    } else if found.Missing? {
      var _ := db.System(Insert(e.city, Rounded(e.price)), runOk);
    }
  }

  /** `update_prices(db_path, file_data, file_count)`. */
  method UpdatePrices(db: Database, fileData: array<CityPrice>, fileCount: nat, sel: seq<bool>, run: seq<bool>)
    requires fileCount <= fileData.Length && |sel| == fileCount && |run| == fileCount
    modifies db
    ensures db.State() == UpdateAll(old(db.State()), fileData[..fileCount], sel, run)
  {
    ghost var es := fileData[..fileCount];
    for i := 0 to fileCount
      invariant db.State() == UpdateAll(old(db.State()), es[..i], sel[..i], run[..i])
    {
      UpdateEntry(db, fileData[i], sel[i], run[i]);
      UpdateNext(old(db.State()), es, sel, run, i);
    }
    assert es[..fileCount] == es && sel[..fileCount] == sel && run[..fileCount] == run;
  }

  // ------------------------------------------------------------ delete_missing_cities

  function Cities(es: seq<CityPrice>): set<seq<char>> {
    set e <- es :: e.city
  }

  /** The `strcmp` search of the inner loop: whether some file entry names
      `city`; it stops at the first match. */
  method Contains(fileData: array<CityPrice>, fileCount: nat, city: seq<char>) returns (found: bool)
    requires fileCount <= fileData.Length
    ensures found <==> city in Cities(fileData[..fileCount])
  {
    found := false;
    var j := 0;
    while j < fileCount
      invariant j <= fileCount
      invariant forall m :: 0 <= m < j ==> fileData[m].city != city
    {
      if fileData[j].city == city {
        assert fileData[..fileCount][j].city == city;
        return true;
      }
      j := j + 1;
    }
    assert forall e <- fileData[..fileCount] :: e.city != city;
  }

  function DeleteStep(d: Db, r: CityPrice, es: seq<CityPrice>, ok: bool): Db {
    if r.city in Cities(es) then d else Issue(d, Delete(r.city), ok)
  }

  /** `delete_missing_cities` over the snapshot loaded before the updates;
      `del[i]` says whether the delete for snapshot row `i`, if issued,
      succeeds. */
  function DeleteAll(d: Db, snap: seq<CityPrice>, es: seq<CityPrice>, del: seq<bool>): Db
    requires |del| == |snap|
  {
    if snap == [] then d
    else
      var n := |snap| - 1;
      DeleteStep(DeleteAll(d, snap[..n], es, del[..n]), snap[n], es, del[n])
  }

  lemma DeleteNext(d: Db, snap: seq<CityPrice>, es: seq<CityPrice>, del: seq<bool>, i: nat)
    requires |del| == |snap| && i < |snap|
    ensures DeleteAll(d, snap[..i + 1], es, del[..i + 1])
         == DeleteStep(DeleteAll(d, snap[..i], es, del[..i]), snap[i], es, del[i])
  {
    assert snap[..i + 1][..i] == snap[..i];
    assert del[..i + 1][..i] == del[..i];
  }

  /** `delete_missing_cities(db_path, db_data, db_count, file_data, file_count)`. */
  method DeleteMissingCities(db: Database, dbData: array<CityPrice>, dbCount: nat,
                             fileData: array<CityPrice>, fileCount: nat, del: seq<bool>)
    requires dbCount <= dbData.Length && fileCount <= fileData.Length && |del| == dbCount
    modifies db
    ensures db.State() == DeleteAll(old(db.State()), dbData[..dbCount], fileData[..fileCount], del)
  {
    ghost var snap := dbData[..dbCount];
    for i := 0 to dbCount
      invariant db.State() == DeleteAll(old(db.State()), snap[..i], fileData[..fileCount], del[..i])
    {
      var found := Contains(fileData, fileCount, dbData[i].city);
      if !found {
        var _ := db.System(Delete(dbData[i].city), del[i]);
      }
      DeleteNext(old(db.State()), snap, fileData[..fileCount], del, i);
    }
    assert snap[..dbCount] == snap && del[..dbCount] == del;
  }

  // ------------------------------------------------------------ main

  /** `main`: load the file, load the table, update, delete. Either load
      failing ends the run with 1 before any command; otherwise 0. `output`
      is what the tool prints for the table before the run. */
  method UpdateFromFile(db: Database, fileOk: bool, contents: seq<char>, pipeOk: bool, output: seq<char>,
                        sel: seq<bool>, run: seq<bool>, del: seq<bool>) returns (status: int)
    requires |sel| == |FileEntries(contents)| && |run| == |FileEntries(contents)|
    requires |del| == |DbRows(output)|
    modifies db
    ensures !fileOk || !pipeOk ==> status == 1 && db.State() == old(db.State())
    ensures fileOk && pipeOk ==> (status == 0 && db.State() ==
      DeleteAll(UpdateAll(old(db.State()), FileEntries(contents), sel, run), DbRows(output), FileEntries(contents), del))
  {
    var fileStatus, fileData, fileCount := LoadFileData(fileOk, contents);
    if fileStatus != 0 {
      return 1;
    }
    var dbStatus, dbData, dbCount := LoadDbData(pipeOk, output);
    if dbStatus != 0 {
      return 1;
    }
    UpdatePrices(db, fileData, fileCount, sel, run);
    DeleteMissingCities(db, dbData, dbCount, fileData, fileCount, del);
    return 0;
  }

  // ------------------------------------------------------------ the update-only tool

  /** The update-only tool on one buffer: one `UPDATE` when the line
      parses, nothing otherwise. */
  function TestStep(parse: seq<char> -> Option<CityPrice>, d: Db, piece: seq<char>, ok: bool): Db {
    match parse(CStr(piece))
    case None => d
    case Some(e) => Issue(d, Update(e.city, Rounded(e.price)), ok)
  }

  /** The update-only tool over successive buffers; `run[i]` says whether
      the command for line `i`, if any, succeeds. */
  function TestRun(parse: seq<char> -> Option<CityPrice>, d: Db, pieces: seq<seq<char>>, run: seq<bool>): Db
    requires |run| == |pieces|
  {
    if pieces == [] then d
    else
      var n := |pieces| - 1;
      TestStep(parse, TestRun(parse, d, pieces[..n], run[..n]), pieces[n], run[n])
  }

  lemma TestNext(parse: seq<char> -> Option<CityPrice>, d: Db, pieces: seq<seq<char>>, run: seq<bool>, k: nat)
    requires |run| == |pieces| && k < |pieces|
    ensures TestRun(parse, d, pieces[..k + 1], run[..k + 1]) == TestStep(parse, TestRun(parse, d, pieces[..k], run[..k]), pieces[k], run[k])
  {
    assert pieces[..k + 1][..k] == pieces[..k];
    assert run[..k + 1][..k] == run[..k];
  }

  /** One turn of the update-only tool's loop on the buffer `fgets` filled
      with `piece`: a line that does not parse is reported and skipped;
      otherwise one `UPDATE`, whose failure is reported and does not stop
      the loop. */
  method TestLine(db: Database, line: array<char>, piece: seq<char>, ok: bool)
    requires |piece| < line.Length
    modifies db, line
    ensures db.State() == TestStep(ParseTestLine, old(db.State()), piece, ok)
  {
    Fgets(line, piece);
    CStrOfBuffer(piece, line[|piece| + 1..]);
    var parsed := ParseTestLine(CStr(line[..]));
    if parsed.Some? {
      var _ := db.System(Update(parsed.value.city, Rounded(parsed.value.price)), ok);
    }
  }

  /** The update-only tool: nothing when the prices file cannot be
      opened; otherwise one `UPDATE` per line that parses, in file order. */
  method TestUpdatePrices(db: Database, fileOk: bool, contents: seq<char>, run: seq<bool>)
    requires |run| == |FgetsLines(contents, MAX_LINE_LENGTH)|
    modifies db
    ensures !fileOk ==> db.State() == old(db.State())
    ensures fileOk ==> db.State() == TestRun(ParseTestLine, old(db.State()), FgetsLines(contents, MAX_LINE_LENGTH), run)
  {
    if !fileOk {
      return;
    }
    var line := new char[MAX_LINE_LENGTH](_ => NUL);
    ghost var pieces := FgetsLines(contents, MAX_LINE_LENGTH);
    var rest := contents;
    var k: nat := 0;
    while rest != []
      invariant k <= |pieces| && FgetsLines(rest, MAX_LINE_LENGTH) == pieces[k..]
      invariant fresh(line) && line.Length == MAX_LINE_LENGTH
      invariant db.State() == TestRun(ParseTestLine, old(db.State()), pieces[..k], run[..k])
      decreases |rest|
    {
      var n := PieceLength(rest, MAX_LINE_LENGTH);
      FgetsNext(rest, n, pieces, k, MAX_LINE_LENGTH);
      TestLine(db, line, rest[..n], run[k]);
      TestNext(ParseTestLine, old(db.State()), pieces, run, k);
      rest := rest[n..];
      k := k + 1;
    }
    assert pieces[..k] == pieces && run[..k] == run;
  }

  // ------------------------------------------------------------ properties

  /** The table the file describes: each city with the price of its last
      line. */
  function FileMap(es: seq<CityPrice>): Table {
    if es == [] then map[]
    else FileMap(es[..|es| - 1])[es[|es| - 1].city := es[|es| - 1].price]
  }

  lemma CitiesSnoc(es: seq<CityPrice>)
    requires es != []
    ensures Cities(es) == Cities(es[..|es| - 1]) + {es[|es| - 1].city}
  {
    assert es == es[..|es| - 1] + [es[|es| - 1]];
  }

  lemma {:induction false} FileMapKeys(es: seq<CityPrice>)
    ensures FileMap(es).Keys == Cities(es)
  {
    if es != [] {
      FileMapKeys(es[..|es| - 1]);
      CitiesSnoc(es);
    }
  }

  /** Runs of `update_prices` compose: the entries after a point see the
      database the entries before it left. */
  lemma {:induction false} UpdateAllAppend(d: Db, a: seq<CityPrice>, b: seq<CityPrice>,
                                           sa: seq<bool>, sb: seq<bool>, ra: seq<bool>, rb: seq<bool>)
    requires |sa| == |a| && |ra| == |a| && |sb| == |b| && |rb| == |b|
    ensures UpdateAll(d, a + b, sa + sb, ra + rb) == UpdateAll(UpdateAll(d, a, sa, ra), b, sb, rb)
    decreases |b|
  {
    if b == [] {
      assert a + b == a && sa + sb == sa && ra + rb == ra;
    } else {
      var n := |b| - 1;
      assert (a + b)[..|a| + n] == a + b[..n] && (a + b)[|a| + n] == b[n];
      assert (sa + sb)[..|a| + n] == sa + sb[..n] && (sa + sb)[|a| + n] == sb[n];
      assert (ra + rb)[..|a| + n] == ra + rb[..n] && (ra + rb)[|a| + n] == rb[n];
      UpdateAllAppend(d, a, b[..n], sa, sb[..n], ra, rb[..n]);
    }
  }

  /** A `SELECT` pipe that fails to open skips that entry and nothing
      else: the run is the run over the other entries. */
  lemma SelectFailureSkips(d: Db, es: seq<CityPrice>, sel: seq<bool>, run: seq<bool>, i: nat)
    requires |sel| == |es| && |run| == |es| && i < |es| && !sel[i]
    ensures UpdateAll(d, es, sel, run)
         == UpdateAll(d, es[..i] + es[i + 1..], sel[..i] + sel[i + 1..], run[..i] + run[i + 1..])
  {
    var head, sh, rh := es[..i + 1], sel[..i + 1], run[..i + 1];
    assert es == head + es[i + 1..] && sel == sh + sel[i + 1..] && run == rh + run[i + 1..];
    UpdateAllAppend(d, head, es[i + 1..], sh, sel[i + 1..], rh, run[i + 1..]);
    UpdateNext(d, es, sel, run, i);
    UpdateAllAppend(d, es[..i], es[i + 1..], sel[..i], sel[i + 1..], run[..i], run[i + 1..]);
  }

  /** Every file line's price is whole hundredths. */
  predicate AllInCents(es: seq<CityPrice>) {
    forall e <- es :: InCents(e.price)
  }

  /** Every city `f` names is in `t`, at its price in `f` or at that price
      rounded to hundredths. */
  predicate CarriesPrices(t: Table, f: Table) {
    forall c <- f.Keys :: c in t && (t[c] == f[c] || t[c] == Rounded(f[c]))
  }

  /** With every lookup and command succeeding, one entry changes only its
      own city: it keeps the file's price when the table already held
      exactly that price, and otherwise the command stores the price
      rounded to hundredths, which is the price itself when it is whole
      hundredths. */
  lemma StepOk(d: Db, e: CityPrice)
    ensures var t := UpdateStep(d, e, true, true).table;
            && e.city in t && t == d.table[e.city := t[e.city]]
            && (t[e.city] == e.price || t[e.city] == Rounded(e.price))
            && (InCents(e.price) ==> t == d.table[e.city := e.price])
  {
    if e.city in d.table && d.table[e.city] == e.price {
      assert d.table[e.city := e.price] == d.table;
    }
  }

  /** After a step that issued a command, the same entry once more is
      silent when its price is whole hundredths. Otherwise the table now
      holds the rounded price, which the lookup finds different from the
      file's, and the same `UPDATE` is issued again on every run. */
  lemma RerunStep(d: Db, e: CityPrice)
    requires e.city !in d.table || d.table[e.city] != e.price
    ensures var once := UpdateStep(d, e, true, true);
            && (InCents(e.price) ==> UpdateStep(once, e, true, true) == once)
            && (!InCents(e.price) ==>
                  UpdateStep(once, e, true, true) == Db(once.table, once.log + [Update(e.city, Rounded(e.price))]))
  {
    var once := UpdateStep(d, e, true, true);
    assert once.table[e.city] == Rounded(e.price);
    if !InCents(e.price) {
      assert once.table[e.city := Rounded(e.price)] == once.table;
    }
  }

  /** One more entry keeps the table carrying the file's prices. */
  lemma CarriesStep(t: Table, f: Table, t2: Table, c: seq<char>, p: real)
    requires CarriesPrices(t, f)
    requires c in t2 && t2 == t[c := t2[c]] && (t2[c] == p || t2[c] == Rounded(p))
    ensures CarriesPrices(t2, f[c := p])
  {
  }

  lemma OverrideUpdate(t: Table, f: Table, c: seq<char>, p: real)
    ensures (t + f)[c := p] == t + f[c := p]
  {
  }

  /** With every lookup and command succeeding, `update_prices` leaves the
      table it found with the file's cities added, each at the price of
      its last line or that price rounded to hundredths; when every price
      is whole hundredths, the table is exactly overridden by the file's
      prices. */
  lemma {:induction false} UpdateAllOk(d: Db, es: seq<CityPrice>, sel: seq<bool>, run: seq<bool>)
    requires |sel| == |es| && |run| == |es| && false !in sel && false !in run
    ensures var t := UpdateAll(d, es, sel, run).table;
            && t.Keys == d.table.Keys + FileMap(es).Keys
            && CarriesPrices(t, FileMap(es))
            && (AllInCents(es) ==> t == d.table + FileMap(es))
  {
    if es != [] {
      var n := |es| - 1;
      assert false !in sel[..n] && false !in run[..n] by {
        assert forall b <- sel[..n] :: b in sel;
        assert forall b <- run[..n] :: b in run;
      }
      UpdateAllOk(d, es[..n], sel[..n], run[..n]);
      var before := UpdateAll(d, es[..n], sel[..n], run[..n]);
      StepOk(before, es[n]);
      var after := UpdateStep(before, es[n], true, true);
      CarriesStep(before.table, FileMap(es[..n]), after.table, es[n].city, es[n].price);
      if AllInCents(es) {
        assert AllInCents(es[..n]) by {
          assert forall e <- es[..n] :: e in es;
        }
        assert es[n] in es;
        OverrideUpdate(d.table, FileMap(es[..n]), es[n].city, es[n].price);
      }
    }
  }

  /** Whatever succeeds or fails, `update_prices` leaves every city the
      file does not name as it was. */
  lemma {:induction false} UpdateLeavesOthers(d: Db, es: seq<CityPrice>, sel: seq<bool>, run: seq<bool>, c: seq<char>)
    requires |sel| == |es| && |run| == |es| && c !in Cities(es)
    ensures c in UpdateAll(d, es, sel, run).table <==> c in d.table
    ensures c in d.table ==> UpdateAll(d, es, sel, run).table[c] == d.table[c]
  {
    if es != [] {
      var n := |es| - 1;
      CitiesSnoc(es);
      UpdateLeavesOthers(d, es[..n], sel[..n], run[..n], c);
    }
  }

  /** A table that already holds every file line's exact price receives
      no command at all. After a successful run this holds only for prices
      in whole hundredths (and a city listed once), as `RerunStep` shows. */
  lemma {:induction false} QuietWhenAgreeing(d: Db, es: seq<CityPrice>, sel: seq<bool>, run: seq<bool>)
    requires |sel| == |es| && |run| == |es|
    requires forall e <- es :: e.city in d.table && d.table[e.city] == e.price
    ensures UpdateAll(d, es, sel, run) == d
  {
    if es != [] {
      var n := |es| - 1;
      assert forall e <- es[..n] :: e in es;
      QuietWhenAgreeing(d, es[..n], sel[..n], run[..n]);
      assert es[n] in es;
    }
  }

  /** The deletes `delete_missing_cities` issues: one for each snapshot
      row whose city the file does not name, in snapshot order. */
  function Doomed(snap: seq<CityPrice>, es: seq<CityPrice>): seq<Command> {
    if snap == [] then []
    else
      var n := |snap| - 1;
      Doomed(snap[..n], es) + (if snap[n].city in Cities(es) then [] else [Delete(snap[n].city)])
  }

  /** Whatever succeeds or fails, the commands issued are exactly the
      deletes of the snapshot cities missing from the file, and a city the
      file names keeps its row. */
  lemma {:induction false} DeleteEffect(d: Db, snap: seq<CityPrice>, es: seq<CityPrice>, del: seq<bool>, c: seq<char>)
    requires |del| == |snap|
    ensures DeleteAll(d, snap, es, del).log == d.log + Doomed(snap, es)
    ensures c in Cities(es) ==> (c in DeleteAll(d, snap, es, del).table <==> c in d.table)
    ensures c in Cities(es) && c in d.table ==> DeleteAll(d, snap, es, del).table[c] == d.table[c]
  {
    if snap != [] {
      var n := |snap| - 1;
      DeleteEffect(d, snap[..n], es, del[..n], c);
    }
  }

  /** With every delete succeeding, exactly the snapshot cities missing
      from the file are gone. */
  lemma {:induction false} DeleteAllOk(d: Db, snap: seq<CityPrice>, es: seq<CityPrice>, del: seq<bool>)
    requires |del| == |snap| && false !in del
    ensures DeleteAll(d, snap, es, del).table == d.table - (Cities(snap) - Cities(es))
  {
    if snap != [] {
      var n := |snap| - 1;
      assert false !in del[..n] by {
        assert forall b <- del[..n] :: b in del;
      }
      DeleteAllOk(d, snap[..n], es, del[..n]);
      CitiesSnoc(snap);
    }
  }

  /** When the snapshot lists the table's cities and every command
      succeeds, update-then-delete leaves the table holding exactly the
      file's cities, each at the last line's price or that price rounded to
      hundredths; with prices in whole hundredths, the table is exactly the
      file's. */
  lemma Reconcile(t: Table, log: seq<Command>, es: seq<CityPrice>, snap: seq<CityPrice>,
                  sel: seq<bool>, run: seq<bool>, del: seq<bool>)
    requires |sel| == |es| && |run| == |es| && |del| == |snap|
    requires false !in sel && false !in run && false !in del
    requires Cities(snap) == t.Keys
    ensures var final := DeleteAll(UpdateAll(Db(t, log), es, sel, run), snap, es, del).table;
            && final.Keys == FileMap(es).Keys
            && CarriesPrices(final, FileMap(es))
            && (AllInCents(es) ==> final == FileMap(es))
  {
    var updated := UpdateAll(Db(t, log), es, sel, run);
    UpdateAllOk(Db(t, log), es, sel, run);
    DeleteAllOk(updated, snap, es, del);
    FileMapKeys(es);
    var final := DeleteAll(updated, snap, es, del).table;
    assert final.Keys == FileMap(es).Keys;
    assert forall c <- final.Keys :: final[c] == updated.table[c];
  }

  // ------------------------------------------------------------ the update-only tool's properties

  function Updates(es: seq<CityPrice>): seq<Command> {
    if es == [] then []
    else Updates(es[..|es| - 1]) + [Update(es[|es| - 1].city, Rounded(es[|es| - 1].price))]
  }

  lemma UpdatesSnoc(es: seq<CityPrice>, kept: seq<CityPrice>)
    requires |kept| <= 1
    ensures Updates(es + kept) == Updates(es) + Updates(kept)
  {
    if kept != [] {
      assert (es + kept)[..|es|] == es;
    } else {
      assert es + kept == es;
    }
  }

  /** Whatever succeeds or fails, the tool issues one `UPDATE` per line
      that parses, in order, and never adds or removes a city. */
  lemma {:induction false} TestEffect(parse: seq<char> -> Option<CityPrice>, d: Db, pieces: seq<seq<char>>, run: seq<bool>)
    requires |run| == |pieces|
    ensures TestRun(parse, d, pieces, run).log == d.log + Updates(Entries(parse, pieces))
    ensures TestRun(parse, d, pieces, run).table.Keys == d.table.Keys
  {
    if pieces != [] {
      var n := |pieces| - 1;
      TestEffect(parse, d, pieces[..n], run[..n]);
      TestLast(parse, d, pieces, run);
      TestStepKeys(parse, TestRun(parse, d, pieces[..n], run[..n]), pieces[n], run[n]);
    }
  }

  /** The last buffer's step extends the log of the ones before it. */
  lemma TestLast(parse: seq<char> -> Option<CityPrice>, d: Db, pieces: seq<seq<char>>, run: seq<bool>)
    requires |run| == |pieces| && pieces != []
    requires TestRun(parse, d, pieces[..|pieces| - 1], run[..|pieces| - 1]).log
          == d.log + Updates(Entries(parse, pieces[..|pieces| - 1]))
    ensures TestRun(parse, d, pieces, run).log == d.log + Updates(Entries(parse, pieces))
  {
    var n := |pieces| - 1;
    var es, kept := Entries(parse, pieces[..n]), Kept(parse, pieces[n]);
    var before := TestRun(parse, d, pieces[..n], run[..n]);
    TestRunLast(parse, d, pieces, run);
    EntriesLast(parse, pieces);
    TestStepLog(parse, before, pieces[n], run[n]);
    UpdatesSnoc(es, kept);
    LogStep(d.log, before.log, TestRun(parse, d, pieces, run).log, Updates(es), Updates(kept), Updates(Entries(parse, pieces)));
  }

  lemma TestRunLast(parse: seq<char> -> Option<CityPrice>, d: Db, pieces: seq<seq<char>>, run: seq<bool>)
    requires |run| == |pieces| && pieces != []
    ensures TestRun(parse, d, pieces, run)
         == TestStep(parse, TestRun(parse, d, pieces[..|pieces| - 1], run[..|pieces| - 1]), pieces[|pieces| - 1], run[|pieces| - 1])
  {
  }

  lemma EntriesLast(parse: seq<char> -> Option<CityPrice>, pieces: seq<seq<char>>)
    requires pieces != []
    ensures Entries(parse, pieces) == Entries(parse, pieces[..|pieces| - 1]) + Kept(parse, pieces[|pieces| - 1])
  {
  }

  lemma LogStep(start: seq<Command>, before: seq<Command>, after: seq<Command>,
                done: seq<Command>, step: seq<Command>, all: seq<Command>)
    requires before == start + done && after == before + step && all == done + step
    ensures after == start + all
  {
  }

  lemma TestStepLog(parse: seq<char> -> Option<CityPrice>, d: Db, piece: seq<char>, ok: bool)
    ensures TestStep(parse, d, piece, ok).log == d.log + Updates(Kept(parse, piece))
  {
    match parse(CStr(piece))
    case None =>
    case Some(e) =>
      assert Kept(parse, piece) == [e];
      assert Updates([e]) == [Update(e.city, Rounded(e.price))];
  }

  lemma TestStepKeys(parse: seq<char> -> Option<CityPrice>, d: Db, piece: seq<char>, ok: bool)
    ensures TestStep(parse, d, piece, ok).table.Keys == d.table.Keys
  {
  }

  /** The prices of the cities a table already has, taken from `f` where
      `f` names them. */
  function Overlay(t: Table, f: Table): (r: Table)
    ensures r.Keys == t.Keys
  {
    map c | c in t :: if c in f then f[c] else t[c]
  }

  /** The prices of `f`, each as `%.2f` writes it. */
  function RoundedPrices(f: Table): (r: Table)
    ensures r.Keys == f.Keys
    ensures forall c <- f.Keys :: InCents(r[c])
  {
    map c | c in f :: Rounded(f[c])
  }

  lemma RoundedPricesSet(f: Table, c: seq<char>, p: real)
    ensures RoundedPrices(f[c := p]) == RoundedPrices(f)[c := Rounded(p)]
  {
  }

  /** Prices in whole hundredths come through `%.2f` unchanged. */
  lemma {:induction false} RoundedFileMap(es: seq<CityPrice>)
    requires AllInCents(es)
    ensures RoundedPrices(FileMap(es)) == FileMap(es)
  {
    if es != [] {
      var n := |es| - 1;
      assert AllInCents(es[..n]) by {
        assert forall e <- es[..n] :: e in es;
      }
      RoundedFileMap(es[..n]);
      assert es[n] in es;
      RoundedPricesSet(FileMap(es[..n]), es[n].city, es[n].price);
    }
  }

  lemma OverlayUpdate(t: Table, f: Table, c: seq<char>, p: real)
    ensures Apply(Overlay(t, f), Update(c, p)) == Overlay(t, f[c := p])
  {
  }

  lemma FileMapSnoc(es: seq<CityPrice>, kept: seq<CityPrice>)
    requires |kept| <= 1
    ensures kept == [] ==> FileMap(es + kept) == FileMap(es)
    ensures kept != [] ==> FileMap(es + kept) == FileMap(es)[kept[0].city := kept[0].price]
  {
    if kept != [] {
      assert (es + kept)[..|es|] == es;
    } else {
      assert es + kept == es;
    }
  }

  /** With every command succeeding, each city the table has takes the
      price of the last line that names it, rounded to hundredths; the
      others keep theirs. */
  lemma {:induction false} TestRunOk(parse: seq<char> -> Option<CityPrice>, d: Db, pieces: seq<seq<char>>, run: seq<bool>)
    requires |run| == |pieces| && false !in run
    ensures TestRun(parse, d, pieces, run).table == Overlay(d.table, RoundedPrices(FileMap(Entries(parse, pieces))))
  {
    if pieces == [] {
      assert Overlay(d.table, map[]) == d.table;
    } else {
      var n := |pieces| - 1;
      assert false !in run[..n] by {
        assert forall b <- run[..n] :: b in run;
      }
      TestRunOk(parse, d, pieces[..n], run[..n]);
      var es := Entries(parse, pieces[..n]);
      var kept := Kept(parse, pieces[n]);
      FileMapSnoc(es, kept);
      if kept != [] {
        RoundedPricesSet(FileMap(es), kept[0].city, kept[0].price);
        OverlayUpdate(d.table, RoundedPrices(FileMap(es)), kept[0].city, Rounded(kept[0].price));
      }
    }
  }
}
