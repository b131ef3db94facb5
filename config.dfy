/** The directory configuration reader of the GPS data extractor. It reads
    `key=value` lines and fills three caller-owned path buffers: the source
    directory, the GPS data directory and the temporary directory. */
module Config {
  import opened Text

  datatype Key = SourceDir | GpsDataDir | TempDir

  function Prefix(k: Key): (p: seq<char>)
    ensures 9 <= |p| && p[|p| - 1] == '='
  {
    match k
    case SourceDir => "SOURCE_DIR="
    case GpsDataDir => "GPS_DATA_DIR="
    case TempDir => "TEMP_DIR="
  }

  /** The key a line sets, if any. The prefixes are compared in the order
      `SOURCE_DIR=`, `GPS_DATA_DIR=`, `TEMP_DIR=`, case-sensitively and at
      column 0; as they begin with different letters, at most one matches. */
  function Match(t: seq<char>): (r: Option<Key>)
    ensures r.Some? ==> StartsWith(t, Prefix(r.value))
    ensures r.None? ==> !StartsWith(t, Prefix(SourceDir)) && !StartsWith(t, Prefix(GpsDataDir)) && !StartsWith(t, Prefix(TempDir))
  {
    if StartsWith(t, Prefix(SourceDir)) then Some(SourceDir)
    else if StartsWith(t, Prefix(GpsDataDir)) then Some(GpsDataDir)
    else if StartsWith(t, Prefix(TempDir)) then Some(TempDir)
    else None
  }

  /** A line sets a key exactly when it begins with that key's prefix: the
      prefixes begin with different letters, so the order in which they
      are compared does not matter. */
  lemma MatchExact(t: seq<char>, k: Key)
    ensures Match(t) == Some(k) <==> StartsWith(t, Prefix(k))
  {
    if StartsWith(t, Prefix(k)) {
      assert t[0] == Prefix(k)[0];
    }
  }

  /** The value a line gives its key: the rest of the line after the `=`,
      newline included. */
  function Value(t: seq<char>, k: Key): seq<char>
    requires StartsWith(t, Prefix(k))
  {
    t[|Prefix(k)|..]
  }

  /** The path a caller reads for a value: the value up to its first
      newline. Nothing else is trimmed. */
  function Cut(v: seq<char>): (r: seq<char>)
    ensures |r| <= |v| && '\n' !in r && r == v[..|r|]
    ensures |r| < |v| ==> v[|r|] == '\n'
  {
    v[..IndexOf(v, '\n')]
  }

  /** Whether the buffer holding `p` sets `k`. */
  predicate Sets(p: seq<char>, k: Key) {
    Match(CStr(p)) == Some(k)
  }

  /** The setting for `k` after the buffers `ps` have been read: the value
      from the last one that sets `k`, or `None` when none does. */
  function Setting(ps: seq<seq<char>>, k: Key): (r: Option<seq<char>>)
    ensures r.Some? ==> NUL !in r.value
  {
    if ps == [] then None
    else if Sets(ps[|ps| - 1], k) then Some(Value(CStr(ps[|ps| - 1]), k))
    else Setting(ps[..|ps| - 1], k)
  }

  /** A value fits the `size - 1` bytes `strncpy` writes, with room for a
      terminator. */
  predicate Fits(s: Option<seq<char>>, size: nat) {
    s.Some? ==> NUL !in s.value && |s.value| < size - 1
  }

  /** A caller's buffer `b` after the read: untouched when its key was never
      set; otherwise the value as `strncpy` copies it (zero-padded to
      `size - 1` bytes) with a terminator stored on its first newline, and
      any bytes from index `size - 1` on untouched. */
  function Stored(b: seq<char>, s: Option<seq<char>>, size: nat): (r: seq<char>)
    requires 1 <= size && size - 1 <= |b| && Fits(s, size)
    ensures |r| == |b| && r[size - 1..] == b[size - 1..]
  {
    match s
    case None => b
    case Some(v) => Strncpy(v, size - 1)[IndexOf(v, '\n') := NUL] + b[size - 1..]
  }

  // ------------------------------------------------------------ the function

  /** `strncpy(dst, v, size - 1)` followed by the store of a terminator on
      the first newline of the copied string (`strcspn`). */
  method Assign(dst: array<char>, v: seq<char>, size: nat)
    requires 1 <= size && size - 1 <= dst.Length
    requires NUL !in v && |v| < size - 1
    modifies dst
    ensures dst[..] == Strncpy(v, size - 1)[IndexOf(v, '\n') := NUL] + old(dst[size - 1..])
  {
    var copy := Strncpy(v, size - 1);
    forall i | 0 <= i < size - 1 {
      dst[i] := copy[i];
    }
    assert dst[..] == copy + old(dst[size - 1..]);
    StrncpyPadded(v, size - 1, old(dst[size - 1..]));
    var cut := IndexOf(CStr(dst[..]), '\n');
    dst[cut] := NUL;
    assert dst[..] == copy[cut := NUL] + old(dst[size - 1..]);
  }

  /** A copy shorter than the destination reads back as the value. */
  lemma StrncpyPadded(v: seq<char>, n: nat, tail: seq<char>)
    requires NUL !in v && |v| < n
    ensures Strncpy(v, n) + tail == v + [NUL] + (Zeros(n - |v| - 1) + tail)
    ensures CStr(Strncpy(v, n) + tail) == v
  {
    CStrOfPlain(v);
    assert Strncpy(v, n) + tail == v + [NUL] + (Zeros(n - |v| - 1) + tail);
    CStrOfTerminated(v, Zeros(n - |v| - 1) + tail);
  }

  /** `read_config`: returns -1, touching nothing, when the file cannot be
      opened; otherwise reads the file one `fgets(line, size, f)` buffer at
      a time, sets each buffer to the last value its key is given, and
      returns 0. */
  method ReadConfig(fileOk: bool, contents: seq<char>, size: nat,
                    srcDir: array<char>, gpsDataDir: array<char>, tempDir: array<char>) returns (status: int)
    requires size >= 2
    requires srcDir.Length >= size - 1 && gpsDataDir.Length >= size - 1 && tempDir.Length >= size - 1
    requires srcDir != gpsDataDir && srcDir != tempDir && gpsDataDir != tempDir
    modifies srcDir, gpsDataDir, tempDir
    ensures !fileOk ==> status == -1
    ensures !fileOk ==> srcDir[..] == old(srcDir[..]) && gpsDataDir[..] == old(gpsDataDir[..]) && tempDir[..] == old(tempDir[..])
    ensures fileOk ==> status == 0
    ensures fileOk ==> (Fits(Setting(FgetsLines(contents, size), SourceDir), size) &&
      srcDir[..] == Stored(old(srcDir[..]), Setting(FgetsLines(contents, size), SourceDir), size))
    ensures fileOk ==> (Fits(Setting(FgetsLines(contents, size), GpsDataDir), size) &&
      gpsDataDir[..] == Stored(old(gpsDataDir[..]), Setting(FgetsLines(contents, size), GpsDataDir), size))
    ensures fileOk ==> (Fits(Setting(FgetsLines(contents, size), TempDir), size) &&
      tempDir[..] == Stored(old(tempDir[..]), Setting(FgetsLines(contents, size), TempDir), size))
  {
    if !fileOk {
      return -1;
    }
    var line := new char[size](_ => NUL);
    ghost var pieces := FgetsLines(contents, size);
    var rest := contents;
    ghost var k := 0;
    while rest != []
      invariant k <= |pieces| && FgetsLines(rest, size) == pieces[k..]
      invariant Holds(srcDir[..], old(srcDir[..]), Setting(pieces[..k], SourceDir), size)
      invariant Holds(gpsDataDir[..], old(gpsDataDir[..]), Setting(pieces[..k], GpsDataDir), size)
      invariant Holds(tempDir[..], old(tempDir[..]), Setting(pieces[..k], TempDir), size)
      decreases |rest|
    {
      var n := PieceLength(rest, size);
      FgetsNext(rest, n, pieces, k, size);
      ReadLine(line, rest[..n], size, srcDir, gpsDataDir, tempDir,
        old(srcDir[..]), old(gpsDataDir[..]), old(tempDir[..]), pieces, k);
      rest := rest[n..];
      k := k + 1;
    }
    assert pieces[..k] == pieces;
    return 0;
  }

  /** Buffer `b`, which held `b0`, holds the setting `s`. */
  predicate Holds(b: seq<char>, b0: seq<char>, s: Option<seq<char>>, size: nat) {
    1 <= size && size - 1 <= |b0| && Fits(s, size) && b == Stored(b0, s, size)
  }

  /** One turn of the loop: `fgets` stores the piece `ps[k]` in `line`, and
      the line sets at most one of the three buffers. */
  method ReadLine(line: array<char>, piece: seq<char>, size: nat,
                  srcDir: array<char>, gpsDataDir: array<char>, tempDir: array<char>,
                  ghost src0: seq<char>, ghost gps0: seq<char>, ghost temp0: seq<char>,
                  ghost ps: seq<seq<char>>, ghost k: nat)
    requires size >= 2 && line.Length == size && k < |ps| && piece == ps[k] && |piece| <= size - 1
    requires srcDir.Length >= size - 1 && gpsDataDir.Length >= size - 1 && tempDir.Length >= size - 1
    requires srcDir != gpsDataDir && srcDir != tempDir && gpsDataDir != tempDir
    requires line != srcDir && line != gpsDataDir && line != tempDir
    requires Holds(srcDir[..], src0, Setting(ps[..k], SourceDir), size)
    requires Holds(gpsDataDir[..], gps0, Setting(ps[..k], GpsDataDir), size)
    requires Holds(tempDir[..], temp0, Setting(ps[..k], TempDir), size)
    modifies line, srcDir, gpsDataDir, tempDir
    ensures Holds(srcDir[..], src0, Setting(ps[..k + 1], SourceDir), size)
    ensures Holds(gpsDataDir[..], gps0, Setting(ps[..k + 1], GpsDataDir), size)
    ensures Holds(tempDir[..], temp0, Setting(ps[..k + 1], TempDir), size)
  {
    Fgets(line, piece);
    CStrOfBuffer(piece, line[|piece| + 1..]);
    var t := CStr(line[..]);
    StoredNext(src0, ps, k, SourceDir, size);
    StoredNext(gps0, ps, k, GpsDataDir, size);
    StoredNext(temp0, ps, k, TempDir, size);
    ApplyLine(t, size, srcDir, gpsDataDir, tempDir);
  }

  /** A buffer `b` after the line `t` is read: set when `t` sets key `k`,
      untouched otherwise. */
  function Assigned(b: seq<char>, t: seq<char>, k: Key, size: nat): (r: seq<char>)
    requires 1 <= size && size - 1 <= |b| && NUL !in t && |t| <= size - 1
  {
    if Match(t) == Some(k) then Stored(b, Some(Value(t, k)), size) else b
  }

  /** The body of the loop for a line whose C string is `t`. */
  method ApplyLine(t: seq<char>, size: nat, srcDir: array<char>, gpsDataDir: array<char>, tempDir: array<char>)
    requires size >= 2 && NUL !in t && |t| <= size - 1
    requires srcDir.Length >= size - 1 && gpsDataDir.Length >= size - 1 && tempDir.Length >= size - 1
    requires srcDir != gpsDataDir && srcDir != tempDir && gpsDataDir != tempDir
    modifies srcDir, gpsDataDir, tempDir
    ensures srcDir[..] == Assigned(old(srcDir[..]), t, SourceDir, size)
    ensures gpsDataDir[..] == Assigned(old(gpsDataDir[..]), t, GpsDataDir, size)
    ensures tempDir[..] == Assigned(old(tempDir[..]), t, TempDir, size)
  {
    if StartsWith(t, Prefix(SourceDir)) {
      Assign(srcDir, t[|Prefix(SourceDir)|..], size);
    } else if StartsWith(t, Prefix(GpsDataDir)) {
      Assign(gpsDataDir, t[|Prefix(GpsDataDir)|..], size);
    } else if StartsWith(t, Prefix(TempDir)) {
      Assign(tempDir, t[|Prefix(TempDir)|..], size);
    }
  }

  /** The loop's step: reading one more buffer either sets `key` to its
      value or leaves the setting as it was. */
  lemma SettingNext(ps: seq<seq<char>>, k: nat, key: Key)
    requires k < |ps|
    ensures Setting(ps[..k + 1], key) ==
      (if Sets(ps[k], key) then Some(Value(CStr(ps[k]), key)) else Setting(ps[..k], key))
  {
    assert ps[..k + 1][..k] == ps[..k];
    assert ps[..k + 1][k] == ps[k];
  }

  lemma StoredNext(b: seq<char>, ps: seq<seq<char>>, k: nat, key: Key, size: nat)
    requires 2 <= size && size - 1 <= |b| && k < |ps| && |ps[k]| <= size - 1
    requires Fits(Setting(ps[..k], key), size)
    ensures Fits(Setting(ps[..k + 1], key), size)
    ensures Stored(b, Setting(ps[..k + 1], key), size)
      == Assigned(Stored(b, Setting(ps[..k], key), size), CStr(ps[k]), key, size)
  {
    SettingNext(ps, k, key);
  }

  // ------------------------------------------------------------ properties

  /** The caller reads back the value up to its first newline: the copy
      is always terminated, as a value is shorter than the line buffer. */
  lemma ReadBack(b: seq<char>, v: seq<char>, size: nat)
    requires 1 <= size && size - 1 <= |b|
    requires NUL !in v && |v| < size - 1
    ensures CStr(Stored(b, Some(v), size)) == Cut(v)
  {
    var n := size - 1;
    var c := IndexOf(v, '\n');
    var z := Zeros(n - |v| - 1) + b[n..];
    StrncpyPadded(v, n, b[n..]);
    UpdateConcat(Strncpy(v, n), b[n..], c);
    CutTerminated(v, z, c);
  }

  lemma UpdateConcat(a: seq<char>, t: seq<char>, c: nat)
    requires c < |a|
    ensures a[c := NUL] + t == (a + t)[c := NUL]
  {
  }

  lemma CutTerminated(v: seq<char>, z: seq<char>, c: nat)
    requires NUL !in v && c <= |v|
    ensures CStr((v + [NUL] + z)[c := NUL]) == v[..c]
  {
    if c == |v| {
      assert (v + [NUL] + z)[c := NUL] == v + [NUL] + z;
      CStrOfTerminated(v, z);
      assert v[..c] == v;
    } else {
      assert (v + [NUL] + z)[c := NUL] == v[..c] + [NUL] + (v[c + 1..] + [NUL] + z);
      CStrOfTerminated(v[..c], v[c + 1..] + [NUL] + z);
    }
  }

  /** Every value the reader can store fits: it is shorter than the line
      buffer by at least the length of its key. */
  lemma {:induction false} SettingFits(ps: seq<seq<char>>, k: Key, size: nat)
    requires size >= 2 && forall i :: 0 <= i < |ps| ==> |ps[i]| <= size - 1
    ensures Setting(ps, k).Some? ==> |Setting(ps, k).value| <= size - 1 - |Prefix(k)|
  {
    if ps != [] && !Sets(ps[|ps| - 1], k) {
      SettingFits(ps[..|ps| - 1], k, size);
    }
  }

  /** The last occurrence wins: when buffer `i` sets `k` and no later one
      does, the setting is the value from buffer `i`. */
  lemma {:induction false} LastWins(ps: seq<seq<char>>, i: nat, k: Key)
    requires i < |ps| && Sets(ps[i], k)
    requires forall j :: i < j < |ps| ==> !Sets(ps[j], k)
    ensures Setting(ps, k) == Some(Value(CStr(ps[i]), k))
    decreases |ps|
  {
    if i < |ps| - 1 {
      var init := ps[..|ps| - 1];
      assert init[i] == ps[i];
      assert forall j :: i < j < |init| ==> init[j] == ps[j];
      LastWins(init, i, k);
    }
  }

  /** A key is left unset exactly when no buffer sets it. */
  lemma {:induction false} NeverSet(ps: seq<seq<char>>, k: Key)
    ensures Setting(ps, k).None? <==> forall p <- ps :: !Sets(p, k)
    decreases |ps|
  {
    if ps != [] {
      var init := ps[..|ps| - 1];
      NeverSet(init, k);
      assert ps == init + [ps[|ps| - 1]];
    }
  }

  /** A value keeps the spaces around it and loses only the newline. */
  lemma NotTrimmed()
    ensures Cut(Value("SOURCE_DIR= /srv/gps \n", SourceDir)) == " /srv/gps "
  {
    var t: seq<char> := "SOURCE_DIR= /srv/gps \n";
    var rest := t[11..];
    assert rest == " /srv/gps " + "\n";
    IndexOfUnique(rest, '\n', 10);
  }

  /** Keys are matched exactly and at the start of the line. */
  lemma Anchored()
    ensures Match("source_dir=/srv\n") == None
    ensures Match(" SOURCE_DIR=/srv\n") == None
    ensures Match("TEMP_DIR =/tmp\n") == None
  {
    var a: seq<char> := "source_dir=/srv\n";
    var b: seq<char> := " SOURCE_DIR=/srv\n";
    var c: seq<char> := "TEMP_DIR =/tmp\n";
    assert a[0] != 'S' && a[0] != 'G' && a[0] != 'T';
    assert b[0] != 'S' && b[0] != 'G' && b[0] != 'T';
    assert c[8] != '=' && c[0] != 'S' && c[0] != 'G';
    assert !StartsWith(c, Prefix(TempDir)) by { assert c[8] != Prefix(TempDir)[8]; }
  }

  /** A configuration file of whole lines: a key given twice keeps its second
      value, and a key never given stays unset. */
  lemma ExampleFile(l0: seq<char>, l1: seq<char>, l2: seq<char>)
    requires l0 == Prefix(SourceDir) + "/a" + "\n"
    requires l1 == Prefix(TempDir) + "/t" + "\n"
    requires l2 == Prefix(SourceDir) + "/b" + "\n"
    ensures Setting(FgetsLines(l0 + l1 + l2, 256), SourceDir) == Some("/b" + "\n")
    ensures Setting(FgetsLines(l0 + l1 + l2, 256), TempDir) == Some("/t" + "\n")
    ensures Setting(FgetsLines(l0 + l1 + l2, 256), GpsDataDir) == None
  {
    ExampleValue(l0, SourceDir, "/a");
    ExampleValue(l1, TempDir, "/t");
    ExampleValue(l2, SourceDir, "/b");
    ThreeLines(l0, l1, l2, 256);
    ThreeSettings(l0, l1, l2);
  }

  lemma ThreeSettings(l0: seq<char>, l1: seq<char>, l2: seq<char>)
    requires Sets(l0, SourceDir) && Sets(l1, TempDir) && Sets(l2, SourceDir)
    ensures Setting([l0, l1, l2], SourceDir) == Some(Value(CStr(l2), SourceDir))
    ensures Setting([l0, l1, l2], TempDir) == Some(Value(CStr(l1), TempDir))
    ensures Setting([l0, l1, l2], GpsDataDir) == None
  {
    var ls := [l0, l1, l2];
    LastWins(ls, 2, SourceDir);
    assert !Sets(ls[2], TempDir);
    LastWins(ls, 1, TempDir);
    assert forall p <- ls :: p == l0 || p == l1 || p == l2;
    NeverSet(ls, GpsDataDir);
  }

  lemma ThreeLines(l0: seq<char>, l1: seq<char>, l2: seq<char>, size: nat)
    requires size >= 2 && WholeLine(l0, size) && WholeLine(l1, size) && WholeLine(l2, size)
    ensures FgetsLines(l0 + l1 + l2, size) == [l0, l1, l2]
  {
    var t1 := l1 + l2;
    var t0 := l0 + t1;
    LineFirst(l2, [], size);
    assert l2 + [] == l2;
    LineFirst(l1, l2, size);
    assert FgetsLines(t1, size) == [l1, l2];
    LineFirst(l0, t1, size);
    assert FgetsLines(t0, size) == [l0, l1, l2];
    assert l0 + l1 + l2 == t0;
  }

  lemma ExampleValue(l: seq<char>, k: Key, v: seq<char>)
    requires l == Prefix(k) + v + "\n" && '\n' !in v && NUL !in v && |v| < 200
    ensures WholeLine(l, 256)
    ensures Sets(l, k) && Value(CStr(l), k) == v + "\n"
  {
    var p := Prefix(k);
    assert NUL !in p && '\n' !in p by {
      match k
      case SourceDir =>
      case GpsDataDir =>
      case TempDir =>
    }
    CStrOfPlain(l);
    assert l[..|l| - 1] == p + v;
    assert l[..|p|] == p && l[|p|..] == v + "\n";
    MatchExact(l, k);
  }
}
