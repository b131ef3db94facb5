/** The GPS log rewriter: it reads the location log one `fgets` buffer at a
    time and writes a compact copy. A `Data from GPS:` line keeps its text
    behind a `D:` tag, a `Static time:` line keeps only what stands between
    its parentheses behind an `S: ` tag, and every other line is dropped. */
module GpsRewrite {
  import opened Text

  /** `char buffer[BUFFER_SIZE]`, filled by `fgets(buffer, BUFFER_SIZE, in)`. */
  const BUFFER_SIZE: nat := 256

  const DATA_TAG: seq<char> := "Data from GPS:"
  const STATIC_TAG: seq<char> := "Static time:"

  const EXIT_SUCCESS: int := 0
  const EXIT_FAILURE: int := 1

  /** Index just past the first `(` of a line, when there is one. */
  function OpenAt(t: seq<char>): (r: Option<nat>)
    ensures r.Some? <==> '(' in t
    ensures r.Some? ==> 1 <= r.value <= |t| && t[r.value - 1] == '(' && '(' !in t[..r.value - 1]
  {
    var i := IndexOf(t, '(');
    assert i == |t| ==> t[..i] == t;
    if i < |t| then Some(i + 1) else None
  }

  /** The output line for the C string `t` in the buffer, or `None` when
      nothing is written for it. Both tags are matched case-sensitively at
      column 0; the `Static time:` text runs from just after the first `(`
      to just before the next `)`, or to the end of the line when no `)`
      follows. */
  function Rewrite(t: seq<char>): (r: Option<seq<char>>)
    ensures r.Some? <==> StartsWith(t, DATA_TAG) || (StartsWith(t, STATIC_TAG) && '(' in t)
  {
    if StartsWith(t, DATA_TAG) then Some("D:" + t[|DATA_TAG|..])
    else if StartsWith(t, STATIC_TAG) then
      match OpenAt(t)
      case None => None
      case Some(p) =>
        var inner := t[p..];
        Some("S: " + inner[..IndexOf(inner, ')')] + "\n")
    else None
  }

  /** Where the loop body stores its terminator: on the `)` that closes a
      `Static time:` text, or on the string's own terminator otherwise. */
  function CutAt(t: seq<char>): (r: nat)
    ensures r <= |t|
    ensures r < |t| ==> t[r] == ')'
  {
    if StartsWith(t, DATA_TAG) || !StartsWith(t, STATIC_TAG) then |t|
    else
      match OpenAt(t)
      case None => |t|
      case Some(p) => p + IndexOf(t[p..], ')')
  }

  function Written(o: Option<seq<char>>): seq<char> {
    if o.Some? then o.value else []
  }

  /** What the loop writes for one buffer holding the piece `p`. */
  function LineOutput(p: seq<char>): seq<char> {
    Written(Rewrite(CStr(p)))
  }

  /** The texts `f` gives for each of `ps`, one after another. */
  function Gather(f: seq<char> -> seq<char>, ps: seq<seq<char>>): seq<char>
  {
    if ps == [] then [] else Gather(f, ps[..|ps| - 1]) + f(ps[|ps| - 1])
  }

  lemma {:induction false} GatherAppend(f: seq<char> -> seq<char>, a: seq<seq<char>>, b: seq<seq<char>>)
    ensures Gather(f, a + b) == Gather(f, a) + Gather(f, b)
    decreases |b|
  {
    if b == [] {
      assert a + b == a;
    } else {
      var c := b[..|b| - 1];
      assert (a + b)[..|a + b| - 1] == a + c;
      assert (a + b)[|a + b| - 1] == b[|b| - 1];
      GatherAppend(f, a, c);
    }
  }

  lemma GatherNext(f: seq<char> -> seq<char>, ps: seq<seq<char>>, k: nat)
    requires k < |ps|
    ensures Gather(f, ps[..k + 1]) == Gather(f, ps[..k]) + f(ps[k])
  {
    assert ps[..k + 1][..k] == ps[..k];
  }

  /** The output file for the buffers the loop reads, in order. */
  function Emitted(pieces: seq<seq<char>>): seq<char> {
    Gather(LineOutput, pieces)
  }

  /** The output file for input file contents `s`. */
  function Processed(s: seq<char>): seq<char> {
    Emitted(FgetsLines(s, BUFFER_SIZE))
  }

  // ------------------------------------------------------------ the program

  /** The loop body for one buffer: it writes the output line, if any, and
      for a `Static time:` line with a closing `)` stores a terminator on
      that `)` in place. */
  method RewriteBuffer(buffer: array<char>) returns (out: Option<seq<char>>)
    requires NUL in buffer[..]
    modifies buffer
    ensures out == Rewrite(old(CStr(buffer[..])))
    ensures buffer[..] == old(buffer[..])[CutAt(old(CStr(buffer[..]))) := NUL]
  {
    var t := CStr(buffer[..]);
    ghost var before := buffer[..];
    assert IndexOf(before, NUL) < |before|;
    assert before[..|t|] == t && before[|t|] == NUL;
    if StartsWith(t, DATA_TAG) {
      out := Some("D:" + t[|DATA_TAG|..]);
    } else if StartsWith(t, STATIC_TAG) {
      var open := OpenAt(t);
      if open.Some? {
        var p := open.value;
        var j := IndexOf(t[p..], ')');
        if p + j < |t| {
          buffer[p + j] := NUL;
        }
        CutString(before, t, p, j);
        assert buffer[..] == before[p + j := NUL];
        out := Some("S: " + CStr(buffer[p..]) + "\n");
      } else {
        out := None;
      }
    } else {
      out := None;
    }
    assert before[|t| := NUL] == before;
  }

  /** Storing a terminator `j` bytes after index `p` of the string `t` held
      in `b` leaves `t[p..p + j]` as the C string at `p`; storing it on the
      string's own terminator changes nothing. */
  lemma CutString(b: seq<char>, t: seq<char>, p: nat, j: nat)
    requires NUL in b && t == CStr(b) && p + j <= |t|
    ensures CStr(b[p + j := NUL][p..]) == t[p..][..j]
    ensures b[|t| := NUL] == b
  {
    assert IndexOf(b, NUL) < |b|;
    assert b[..|t|] == t && b[|t|] == NUL;
    var c := b[p + j := NUL];
    assert c[p..] == t[p..][..j] + [NUL] + c[p + j + 1..];
    CStrOfBuffer(t[p..][..j], c[p + j + 1..]);
    CStrOfPlain(t[p..][..j]);
  }

  /** The whole program for an input file with contents `input`: it fails,
      creating no output, when either file cannot be opened; otherwise it
      writes the rewritten lines of the input, in order. */
  method ProcessLocations(inputOk: bool, outputOk: bool, input: seq<char>) returns (status: int, output: Option<seq<char>>)
    ensures !(inputOk && outputOk) ==> status == EXIT_FAILURE && output == None
    ensures inputOk && outputOk ==> status == EXIT_SUCCESS && output == Some(Processed(input))
  {
    if !inputOk || !outputOk {
      return EXIT_FAILURE, None;
    }
    var buffer := new char[BUFFER_SIZE](_ => NUL);
    var written: seq<char> := [];
    ghost var pieces := FgetsLines(input, BUFFER_SIZE);
    var rest := input;
    ghost var k := 0;
    while rest != []
      invariant k <= |pieces| && FgetsLines(rest, BUFFER_SIZE) == pieces[k..]
      invariant written == Emitted(pieces[..k])
      decreases |rest|
    {
      var n := PieceLength(rest, BUFFER_SIZE);
      FgetsNext(rest, n, pieces, k, BUFFER_SIZE);
      Fgets(buffer, rest[..n]);
      CStrOfBuffer(rest[..n], buffer[n + 1..]);
      var line := RewriteBuffer(buffer);
      GatherNext(LineOutput, pieces, k);
      written := written + Written(line);
      rest := rest[n..];
      k := k + 1;
    }
    assert pieces[..k] == pieces;
    return EXIT_SUCCESS, Some(written);
  }

  // ------------------------------------------------------------ properties

  /** A `Data from GPS:` line becomes `D:` followed by the rest of the line,
      verbatim: the space after the colon and the newline stay. */
  lemma DataLine(rest: seq<char>)
    requires NUL !in rest
    ensures Rewrite(CStr(DATA_TAG + rest)) == Some("D:" + rest)
  {
    CStrOfPlain(DATA_TAG + rest);
    assert (DATA_TAG + rest)[|DATA_TAG|..] == rest;
  }

  lemma StaticShape(pre: seq<char>, inner: seq<char>, post: seq<char>)
    requires '(' !in pre
    ensures OpenAt(STATIC_TAG + pre + "(" + inner + post) == Some(|STATIC_TAG| + |pre| + 1)
    ensures (STATIC_TAG + pre + "(" + inner + post)[|STATIC_TAG| + |pre| + 1..] == inner + post
  {
    var t := STATIC_TAG + pre + "(" + inner + post;
    var i := |STATIC_TAG| + |pre|;
    assert t[..i] == STATIC_TAG + pre;
    assert t[i] == '(';
    IndexOfUnique(t, '(', i);
  }

  /** A `Static time:` line becomes `S: `, the text between the first `(`
      and the next `)`, and a newline; what follows the `)` is dropped. */
  lemma StaticLine(pre: seq<char>, inner: seq<char>, post: seq<char>)
    requires '(' !in pre && ')' !in inner
    requires NUL !in pre + inner + post
    ensures Rewrite(CStr(STATIC_TAG + pre + "(" + inner + ")" + post)) == Some("S: " + inner + "\n")
  {
    var t := STATIC_TAG + pre + "(" + inner + ")" + post;
    assert t == STATIC_TAG + pre + "(" + inner + (")" + post);
    CStrOfPlain(t);
    StaticShape(pre, inner, ")" + post);
    var u := inner + (")" + post);
    assert u[|inner|] == ')' && u[..|inner|] == inner;
    IndexOfUnique(u, ')', |inner|);
    assert !StartsWith(t, DATA_TAG) by { assert t[0] != DATA_TAG[0]; }
  }

  /** Without a closing `)` the whole rest of the line is kept, its own
      newline included, and a second newline is added. */
  lemma StaticUnclosed(pre: seq<char>, inner: seq<char>)
    requires '(' !in pre && ')' !in inner
    requires NUL !in pre + inner
    ensures Rewrite(CStr(STATIC_TAG + pre + "(" + inner)) == Some("S: " + inner + "\n")
  {
    var t := STATIC_TAG + pre + "(" + inner;
    assert t == STATIC_TAG + pre + "(" + inner + [];
    CStrOfPlain(t);
    StaticShape(pre, inner, []);
    assert inner[..|inner|] == inner;
    IndexOfUnique(inner, ')', |inner|);
    assert !StartsWith(t, DATA_TAG) by { assert t[0] != DATA_TAG[0]; }
  }

  /** A `Static time:` line without `(` writes nothing. */
  lemma StaticNoParen(rest: seq<char>)
    requires '(' !in rest
    ensures Rewrite(STATIC_TAG + rest) == None
  {
    var t := STATIC_TAG + rest;
    assert !StartsWith(t, DATA_TAG) by { assert t[0] != DATA_TAG[0]; }
    assert '(' !in t by {
      forall i | 0 <= i < |t| ensures t[i] != '(' {
        if i >= |STATIC_TAG| { assert t[i] == rest[i - |STATIC_TAG|]; }
      }
    }
  }

  /** The tags are matched exactly and at the start of the line: a leading
      space or a different letter case drops the line, whatever follows. */
  lemma Anchored(rest: seq<char>)
    ensures Rewrite(" " + DATA_TAG + rest) == None
    ensures Rewrite(" " + STATIC_TAG + rest) == None
    ensures Rewrite("d" + DATA_TAG[1..] + rest) == None
    ensures Rewrite("s" + STATIC_TAG[1..] + rest) == None
    ensures Rewrite(DATA_TAG + rest) == Some("D:" + rest)
  {
    Untagged(" " + DATA_TAG + rest);
    Untagged(" " + STATIC_TAG + rest);
    Untagged("d" + DATA_TAG[1..] + rest);
    Untagged("s" + STATIC_TAG[1..] + rest);
    DataPlain(rest);
  }

  /** A line whose first byte starts neither tag is dropped. */
  lemma Untagged(t: seq<char>)
    requires t != [] && t[0] != DATA_TAG[0] && t[0] != STATIC_TAG[0]
    ensures Rewrite(t) == None
  {
    assert !StartsWith(t, DATA_TAG) && !StartsWith(t, STATIC_TAG);
  }

  lemma DataPlain(rest: seq<char>)
    ensures Rewrite(DATA_TAG + rest) == Some("D:" + rest)
  {
    var t := DATA_TAG + rest;
    assert t[..|DATA_TAG|] == DATA_TAG;
    assert t[|DATA_TAG|..] == rest;
  }

  /** Output keeps input order: the output for two runs of buffers is the
      output for the first followed by that for the second. */
  lemma EmittedAppend(a: seq<seq<char>>, b: seq<seq<char>>)
    ensures Emitted(a + b) == Emitted(a) + Emitted(b)
  {
    GatherAppend(LineOutput, a, b);
  }

  /** A file of lines that fit the buffer is rewritten line by line: its
      output is each line's output, in order. */
  lemma ProcessedLines(ls: seq<seq<char>>)
    requires WholeLines(ls, BUFFER_SIZE)
    ensures Processed(Concat(ls)) == Emitted(ls)
  {
    FgetsOfWholeLines(ls, BUFFER_SIZE);
  }

  lemma EmittedOne(p: seq<char>)
    ensures Emitted([p]) == LineOutput(p)
  {
    assert [p][..0] == [];
    assert Gather(LineOutput, [p]) == Gather(LineOutput, []) + LineOutput(p);
  }

  lemma EmittedThree(a: seq<char>, b: seq<char>, c: seq<char>)
    ensures Emitted([a, b, c]) == LineOutput(a) + LineOutput(b) + LineOutput(c)
  {
    EmittedOne(a);
    EmittedOne(b);
    EmittedOne(c);
    EmittedAppend([a], [b]);
    EmittedAppend([a, b], [c]);
    assert [a] + [b] == [a, b] && [a, b] + [c] == [a, b, c];
  }

  /** A position line, a stop line and a line of any other kind give the
      position after `D:` and the stop's parenthesised text after `S: `. */
  lemma PositionStopOther(pos: seq<char>, pre: seq<char>, inner: seq<char>, other: seq<char>)
    requires NUL !in pos && '(' !in pre && ')' !in inner && NUL !in pre + inner + "\n"
    requires other != [] && NUL !in other && other[0] != DATA_TAG[0] && other[0] != STATIC_TAG[0]
    ensures Emitted([DATA_TAG + pos, STATIC_TAG + pre + "(" + inner + ")" + "\n", other])
      == "D:" + pos + ("S: " + inner + "\n")
  {
    var a := DATA_TAG + pos;
    var b := STATIC_TAG + pre + "(" + inner + ")" + "\n";
    EmittedThree(a, b, other);
    DataLine(pos);
    StaticLine(pre, inner, "\n");
    CStrOfPlain(other);
    assert LineOutput(other) == [];
  }

  /** A log in the simulator's formats: a position ("Data from GPS: x %.2lf
      y %.2lf z %.2lf"), a stop ("Static time: %d seconds (x %.2lf y %.2lf
      z %.2lf)") and a line of any other kind. */
  lemma ExampleLog()
    ensures Emitted([DATA_TAG + " x 1.00 y 2.00 z 3.00\n",
                     STATIC_TAG + " 5 seconds " + "(" + "x 1.00 y 2.00 z 3.00" + ")" + "\n",
                     "Moving\n"])
      == "D:" + " x 1.00 y 2.00 z 3.00\n" + ("S: " + "x 1.00 y 2.00 z 3.00" + "\n")
  {
    PositionStopOther(" x 1.00 y 2.00 z 3.00\n", " 5 seconds ", "x 1.00 y 2.00 z 3.00", "Moving\n");
  }
}
