/** Character-level building blocks shared by every component: the C string
    view of a byte buffer (everything up to the first NUL), `strncpy`,
    `strchr`-style searching, the `fgets` line splitter and the `strtok`
    tokenizer on newlines. Bytes are modelled as `char`s. */
module Text {

  datatype Option<+T> = None | Some(value: T) {
    predicate IsFailure() { None? }
    function PropagateFailure<U>(): Option<U> requires None? { None }
    function Extract(): T requires Some? { value }
  }

  const NUL: char := 0 as char

  /** `isspace` in the C locale. */
  predicate IsSpace(c: char) {
    c == ' ' || c == '\t' || c == '\n' || c == '\r' || c == 11 as char || c == 12 as char
  }

  predicate IsDigit(c: char) { '0' <= c <= '9' }

  /** The input left after a whitespace directive of `scanf` (or the leading
      whitespace skip of `%s`, `%lf` and `strtod`). */
  function SkipSpace(s: seq<char>): (r: seq<char>)
    ensures |r| <= |s| && r == s[|s| - |r|..]
    ensures r == [] || !IsSpace(r[0])
    ensures forall i :: 0 <= i < |s| - |r| ==> IsSpace(s[i])
  {
    if s != [] && IsSpace(s[0]) then
      var r := SkipSpace(s[1..]);
      assert s[1..][|s| - 1 - |r|..] == s[|s| - |r|..];
      assert forall i :: 1 <= i < |s| - |r| ==> s[i] == s[1..][i - 1];
      r
    else s
  }

  function Zeros(n: nat): (r: seq<char>)
    ensures |r| == n && forall i :: 0 <= i < n ==> r[i] == NUL
  {
    seq(n, _ => NUL)
  }

  /** Index of the first `c` in `s`, or `|s|` when there is none (`strchr`, `strcspn`). */
  function IndexOf(s: seq<char>, c: char): (r: nat)
    ensures r <= |s|
    ensures c !in s[..r]
    ensures r < |s| ==> s[r] == c
  {
    if s == [] then 0
    else if s[0] == c then 0
    else 1 + IndexOf(s[1..], c)
  }

  /** The three properties in IndexOf's contract determine its result. */
  lemma IndexOfUnique(s: seq<char>, c: char, r: nat)
    requires r <= |s| && c !in s[..r] && (r < |s| ==> s[r] == c)
    ensures IndexOf(s, c) == r
  {
    var j := IndexOf(s, c);
    assert forall k :: 0 <= k < r ==> s[k] != c;
    assert forall k :: 0 <= k < j ==> s[k] != c;
  }

  /** The C string stored in a buffer: the bytes before the first NUL, or the
      whole buffer when it holds none. */
  function CStr(s: seq<char>): (r: seq<char>)
    ensures r == s[..IndexOf(s, NUL)]
    ensures NUL !in r
  {
    s[..IndexOf(s, NUL)]
  }

  lemma CStrOfPlain(s: seq<char>)
    requires NUL !in s
    ensures CStr(s) == s
  {
    assert s[..|s|] == s;
  }

  lemma CStrOfTerminated(s: seq<char>, t: seq<char>)
    requires NUL !in s
    ensures CStr(s + [NUL] + t) == s
  {
    var u := s + [NUL] + t;
    assert u[..|s|] == s;
    assert u[|s|] == NUL;
    IndexOfUnique(u, NUL, |s|);
  }

  /** A buffer holding `s`, a terminator and stale bytes holds the C string of `s`. */
  lemma CStrOfBuffer(s: seq<char>, t: seq<char>)
    ensures CStr(s + [NUL] + t) == CStr(s)
  {
    if NUL in s {
      assert s + [NUL] + t == s + ([NUL] + t);
      IndexOfPrefix(s, [NUL] + t, NUL);
      assert (s + ([NUL] + t))[..IndexOf(s, NUL)] == s[..IndexOf(s, NUL)];
    } else {
      CStrOfTerminated(s, t);
      CStrOfPlain(s);
    }
  }

  /** `strncpy(dst, src, n)` into an `n`-byte destination: the C string of
      `src`, cut at `n` bytes, then zero padding up to `n`. */
  function Strncpy(src: seq<char>, n: nat): (r: seq<char>)
    ensures |r| == n
    ensures forall i :: 0 <= i < n ==> r[i] == if i < |CStr(src)| then CStr(src)[i] else NUL
  {
    var t := CStr(src);
    if |t| >= n then t[..n] else t + Zeros(n - |t|)
  }

  /** When the source string is shorter than the destination, the copy is
      terminated and reads back as exactly the source string; no byte of what
      the destination held before survives. */
  lemma StrncpyReadsBack(src: seq<char>, n: nat)
    requires NUL !in src && |src| < n
    ensures CStr(Strncpy(src, n)) == src
  {
    CStrOfPlain(src);
    var r := Strncpy(src, n);
    assert r == src + [NUL] + Zeros(n - |src| - 1);
    CStrOfTerminated(src, Zeros(n - |src| - 1));
  }

  /** A full-length copy carries no terminator at all. */
  lemma StrncpyFullLength(src: seq<char>, n: nat)
    requires NUL !in src && |src| == n
    ensures Strncpy(src, n) == src && NUL !in Strncpy(src, n)
  {
    CStrOfPlain(src);
  }

  predicate StartsWith(s: seq<char>, prefix: seq<char>) {
    |prefix| <= |s| && s[..|prefix|] == prefix
  }

  function Concat(ss: seq<seq<char>>): (r: seq<char>)
  {
    if ss == [] then [] else Concat(ss[..|ss| - 1]) + ss[|ss| - 1]
  }

  /** Concatenation regroups. */
  lemma Assoc<T>(a: seq<T>, b: seq<T>, c: seq<T>)
    ensures a + b + c == a + (b + c)
  {
  }

  lemma {:induction false} ConcatAppend(a: seq<seq<char>>, b: seq<seq<char>>)
    ensures Concat(a + b) == Concat(a) + Concat(b)
    decreases |b|
  {
    if b == [] {
      assert a + b == a;
    } else {
      var c, x := b[..|b| - 1], b[|b| - 1];
      assert b == c + [x];
      assert a + b == (a + c) + [x];
      ConcatAppend(a, c);
      ConcatLast(a + c, x);
      ConcatLast(c, x);
      assert Concat(a) + Concat(c) + x == Concat(a) + (Concat(c) + x);
    }
  }

  lemma ConcatLast(ls: seq<seq<char>>, l: seq<char>)
    ensures Concat(ls + [l]) == Concat(ls) + l
  {
    assert (ls + [l])[..|ls|] == ls;
  }

  lemma ConcatHead(s: seq<char>, h: seq<char>, t: seq<char>, ls: seq<seq<char>>, ts: seq<seq<char>>)
    requires ls == [h] + ts && Concat(ts) == t && s == h + t
    ensures Concat(ls) == s
  {
    ConcatCons(h, ts);
  }

  lemma ConcatCons(x: seq<char>, b: seq<seq<char>>)
    ensures Concat([x] + b) == x + Concat(b)
  {
    ConcatAppend([x], b);
    assert Concat([x]) == Concat([]) + x;
  }

  // ---------------------------------------------------------------- fgets

  /** Length of the piece one `fgets(buf, size, f)` call takes from the
      remaining input `s`: up to and including the first newline, at most
      `size - 1` bytes, or what is left. */
  function PieceLength(s: seq<char>, size: nat): (n: nat)
    requires size >= 2 && s != []
    ensures 1 <= n <= |s| && n <= size - 1
    ensures '\n' !in s[..n - 1]
  {
    var k := IndexOf(s, '\n');
    var upto := if k < |s| then k + 1 else |s|;
    if upto <= size - 1 then upto else size - 1
  }

  /** What one `fgets(buf, size, f)` call can return: one to `size - 1`
      bytes, with a newline at most as the last of them. */
  predicate IsPiece(p: seq<char>, size: nat) {
    1 <= |p| <= size - 1 && '\n' !in p[..|p| - 1]
  }

  /** The successive buffers that a `while (fgets(buf, size, f))` loop sees
      for file contents `s`. */
  function FgetsLines(s: seq<char>, size: nat): (r: seq<seq<char>>)
    requires size >= 2
    decreases |s|
  {
    if s == [] then []
    else
      var n := PieceLength(s, size);
      [s[..n]] + FgetsLines(s[n..], size)
  }

  /** Every buffer such a loop sees is a possible `fgets` result. */
  lemma {:induction false} FgetsLinesPieces(s: seq<char>, size: nat)
    requires size >= 2
    ensures forall i :: 0 <= i < |FgetsLines(s, size)| ==> IsPiece(FgetsLines(s, size)[i], size)
    decreases |s|
  {
    if s != [] {
      var n := PieceLength(s, size);
      FgetsLinesPieces(s[n..], size);
      FgetsLinesHead(s, s[..n], s[n..], size);
      var r := FgetsLines(s, size);
      forall i | 0 <= i < |r| ensures IsPiece(r[i], size) {
        if i > 0 { assert r[i] == FgetsLines(s[n..], size)[i - 1]; }
      }
    }
  }

  /** Reading a file line by line loses and duplicates nothing. */
  lemma {:induction false} FgetsLinesPartition(s: seq<char>, size: nat)
    requires size >= 2
    ensures Concat(FgetsLines(s, size)) == s
    decreases |s|
  {
    if s != [] {
      var n := PieceLength(s, size);
      FgetsLinesPartition(s[n..], size);
      FgetsLinesHead(s, s[..n], s[n..], size);
      assert s[..n] + s[n..] == s;
      ConcatHead(s, s[..n], s[n..], FgetsLines(s, size), FgetsLines(s[n..], size));
    }
  }

  /** A piece boundary falls on every newline: the lines of `a + b`, when `a`
      ends a line, are the lines of `a` followed by the lines of `b`. */
  lemma {:induction false} FgetsLinesAppend(a: seq<char>, b: seq<char>, size: nat)
    requires size >= 2
    requires a == [] || a[|a| - 1] == '\n'
    ensures FgetsLines(a + b, size) == FgetsLines(a, size) + FgetsLines(b, size)
    decreases |a|
  {
    if a == [] {
      assert a + b == b;
    } else {
      var n := PieceLength(a, size);
      PieceLengthPrefix(a, b, size);
      var rest := a[n..];
      assert rest == [] || rest[|rest| - 1] == '\n';
      FgetsLinesAppend(rest, b, size);
      FgetsLinesHead(a + b, a[..n], rest + b, size);
      FgetsLinesHead(a, a[..n], rest, size);
      HeadAppend(a[..n], FgetsLines(a + b, size), FgetsLines(a, size),
        FgetsLines(rest + b, size), FgetsLines(rest, size), FgetsLines(b, size));
    }
  }

  lemma HeadAppend(h: seq<char>, whole: seq<seq<char>>, left: seq<seq<char>>,
                   wholeTail: seq<seq<char>>, leftTail: seq<seq<char>>, right: seq<seq<char>>)
    requires whole == [h] + wholeTail && left == [h] + leftTail && wholeTail == leftTail + right
    ensures whole == left + right
  {
  }

  /** The first piece of `a + b` is the first piece of `a` when `a` holds
      a newline. */
  lemma PieceLengthPrefix(a: seq<char>, b: seq<char>, size: nat)
    requires size >= 2 && '\n' in a
    ensures PieceLength(a + b, size) == PieceLength(a, size)
    ensures (a + b)[..PieceLength(a, size)] == a[..PieceLength(a, size)]
    ensures (a + b)[PieceLength(a, size)..] == a[PieceLength(a, size)..] + b
  {
    IndexOfPrefix(a, b, '\n');
  }

  /** One unfolding of `FgetsLines`, named by its head piece and the rest. */
  lemma FgetsLinesHead(s: seq<char>, head: seq<char>, rest: seq<char>, size: nat)
    requires size >= 2 && s != []
    requires head == s[..PieceLength(s, size)] && rest == s[PieceLength(s, size)..]
    ensures FgetsLines(s, size) == [head] + FgetsLines(rest, size)
  {
  }

  /** One `fgets` call of a reading loop: the next piece of the unread
      input `rest` is the next of the pieces the whole file is read as. */
  lemma FgetsNext(rest: seq<char>, n: nat, pieces: seq<seq<char>>, k: nat, size: nat)
    requires size >= 2 && rest != [] && n == PieceLength(rest, size)
    requires k <= |pieces| && FgetsLines(rest, size) == pieces[k..]
    ensures k < |pieces| && pieces[k] == rest[..n]
    ensures FgetsLines(rest[n..], size) == pieces[k + 1..]
  {
    FgetsLinesHead(rest, rest[..n], rest[n..], size);
    assert pieces[k..][1..] == pieces[k + 1..];
  }

  /** `fgets` storing one piece in `buffer`: the piece, then a terminator;
      the bytes after it keep what they held. */
  method Fgets(buffer: array<char>, piece: seq<char>)
    requires |piece| < buffer.Length
    modifies buffer
    ensures buffer[..] == piece + [NUL] + old(buffer[|piece| + 1..])
  {
    forall i | 0 <= i < |piece| {
      buffer[i] := piece[i];
    }
    buffer[|piece|] := NUL;
    assert buffer[..] == piece + [NUL] + old(buffer[|piece| + 1..]);
  }

  /** A whole line: what one `fgets(buf, size, f)` call returns when the
      line fits the buffer. */
  predicate WholeLine(l: seq<char>, size: nat) {
    1 <= |l| < size && l[|l| - 1] == '\n' && '\n' !in l[..|l| - 1]
  }

  /** Every one of `ls` is a whole line. */
  predicate WholeLines(ls: seq<seq<char>>, size: nat) {
    ls == [] || (WholeLine(ls[0], size) && WholeLines(ls[1..], size))
  }

  /** A file of lines that fit the buffer is read one line per call. */
  lemma {:induction false} FgetsOfWholeLines(ls: seq<seq<char>>, size: nat)
    requires size >= 2 && WholeLines(ls, size)
    ensures FgetsLines(Concat(ls), size) == ls
    decreases |ls|
  {
    if ls != [] {
      var l := ls[0];
      var rest := ls[1..];
      assert ls == [l] + rest;
      FgetsOfWholeLines(rest, size);
      ConcatCons(l, rest);
      LineFirst(l, Concat(rest), size);
    }
  }

  /** A whole line at the head of the input is the first buffer read. */
  lemma LineFirst(l: seq<char>, t: seq<char>, size: nat)
    requires size >= 2 && WholeLine(l, size)
    ensures FgetsLines(l + t, size) == [l] + FgetsLines(t, size)
  {
    assert l[..|l| - 1] + ['\n'] == l;
    IndexOfUnique(l, '\n', |l| - 1);
    PieceLengthPrefix(l, t, size);
    assert PieceLength(l, size) == |l|;
    assert (l + t)[..|l|] == l && (l + t)[|l|..] == t;
    FgetsLinesHead(l + t, l, t, size);
  }

  lemma IndexOfPrefix(a: seq<char>, b: seq<char>, c: char)
    requires c in a
    ensures IndexOf(a + b, c) == IndexOf(a, c)
  {
    var k := IndexOf(a, c);
    assert (a + b)[k] == c;
    assert (a + b)[..k] == a[..k];
    IndexOfUnique(a + b, c, k);
  }

  // ---------------------------------------------------------------- strtok

  /** Length of the run of non-newline characters at the head of `s`. */
  function RunLength(s: seq<char>): (n: nat)
    ensures n <= |s| && '\n' !in s[..n]
    ensures n < |s| ==> s[n] == '\n'
  {
    IndexOf(s, '\n')
  }

  /** The successive tokens of `strtok(buf, "\n")` / `strtok(NULL, "\n")` on
      the C string `s`: runs of newlines separate tokens and are never
      returned, so no token is empty and none holds a newline. */
  function Tokens(s: seq<char>): (r: seq<seq<char>>)
    ensures forall i :: 0 <= i < |r| ==> r[i] != [] && '\n' !in r[i]
    ensures forall i :: 0 <= i < |r| ==> forall c :: c in r[i] ==> c in s
    ensures forall i :: 0 <= i < |r| ==> |r[i]| <= |s|
    decreases |s|
  {
    if s == [] then []
    else if s[0] == '\n' then Tokens(s[1..])
    else
      var n := RunLength(s);
      [s[..n]] + Tokens(s[n..])
  }

  /** A line is what the tokenizer can return: non-empty, newline-free, and
      (being part of a C string) NUL-free. */
  predicate IsLine(l: seq<char>) {
    l != [] && '\n' !in l && NUL !in l
  }

  /** The text a producer sends for a list of lines: each line followed by a
      newline. */
  function JoinLines(ls: seq<seq<char>>): (r: seq<char>)
  {
    if ls == [] then [] else ls[0] + "\n" + JoinLines(ls[1..])
  }

  /** Tokenizing undoes joining: lines sent newline-terminated come back one
      token per line, in order. */
  lemma {:induction false} TokensJoinLines(ls: seq<seq<char>>)
    requires forall i :: 0 <= i < |ls| ==> ls[i] != [] && '\n' !in ls[i]
    ensures Tokens(JoinLines(ls)) == ls
  {
    if ls != [] {
      var s := JoinLines(ls);
      var l := ls[0];
      assert s == l + ("\n" + JoinLines(ls[1..]));
      TokensJoinLines(ls[1..]);
      RunOfLine(l, "\n" + JoinLines(ls[1..]));
      assert s[0] == l[0];
      assert s[..|l|] == l;
      assert s[|l|..] == "\n" + JoinLines(ls[1..]);
      assert Tokens(s[|l|..]) == Tokens(JoinLines(ls[1..]));
      assert ls == [l] + ls[1..];
    }
  }

  /** A run of separators anywhere collapses: doubling a newline changes no token. */
  lemma {:induction false} TokensSkipLeadingNewlines(k: nat, s: seq<char>)
    ensures Tokens(seq(k, _ => '\n') + s) == Tokens(s)
  {
    if k > 0 {
      var t := seq(k, _ => '\n') + s;
      assert t[0] == '\n';
      assert t[1..] == seq(k - 1, _ => '\n') + s;
      TokensSkipLeadingNewlines(k - 1, s);
    } else {
      assert seq(k, _ => '\n') + s == s;
    }
  }

  lemma RunOfLine(l: seq<char>, rest: seq<char>)
    requires '\n' !in l
    requires rest != [] && rest[0] == '\n'
    ensures RunLength(l + rest) == |l|
  {
    var s := l + rest;
    assert s[|l|] == '\n';
    assert s[..|l|] == l;
    IndexOfUnique(s, '\n', |l|);
  }

  /** A newline at the head of the text is skipped. */
  lemma TokensNewline(s: seq<char>, p: nat)
    requires p < |s| && s[p] == '\n'
    ensures Tokens(s[p..]) == Tokens(s[p + 1..])
  {
    assert s[p..][1..] == s[p + 1..];
  }

  /** A run of non-newline characters `s[p..q]` ending at a newline or at
      the end of the text is the next token. */
  lemma TokensRun(s: seq<char>, p: nat, q: nat)
    requires p < q <= |s| && s[p] != '\n' && '\n' !in s[p..q]
    requires q < |s| ==> s[q] == '\n'
    ensures Tokens(s[p..]) == [s[p..q]] + Tokens(s[q..])
  {
    var r := s[p..];
    assert r[..q - p] == s[p..q];
    IndexOfUnique(r, '\n', q - p);
    assert r[q - p..] == s[q..];
  }

  /** A trailing fragment with no newline is returned as a token of its own. */
  lemma TokensOfFragment(l: seq<char>)
    requires l != [] && '\n' !in l
    ensures Tokens(l) == [l]
  {
    assert RunLength(l) == |l|;
    assert l[..|l|] == l;
    assert l[|l|..] == [];
  }
}
