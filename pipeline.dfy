/** The server's ingestion pipeline as one shared state. Three processes
    meet at a 1024-byte shared-memory slot:
      - the socket server's client handlers split each received chunk into
        lines and copy every line over the slot (`strncpy`), so the last
        write wins;
      - the drain worker appends a non-empty slot plus a newline to the log
        file, writes the slot text to the database FIFO without a
        separator, ignoring how the write ends, and zeroes the slot;
      - the change notifier compares the slot with the last text it saw and
        writes a fixed 15-byte notice to its own FIFO when they differ.
    Each loop body is one atomic transition; a run is any interleaving of
    them. */
module Pipeline {
  import opened Text

  /** Size of the shared slot and of a receive buffer. */
  const BUFFER_SIZE: nat := 1024

  /** The notifier's payload: the text and its terminating NUL, 15 bytes. */
  const NOTICE: seq<char> := "data received\n" + [NUL]

  /** Everything the three processes share or produce. `lastDrained` is the
      drain worker's `last_data` copy, `seen` the notifier's; `log` is the
      log file's contents, `fifo` the bytes sent to the database writer,
      `notices` the bytes sent on the notifier's FIFO. */
  datatype Shared = Shared(
    slot: seq<char>,
    log: seq<char>,
    fifo: seq<char>,
    lastDrained: seq<char>,
    seen: seq<char>,
    notices: seq<char>,
    drainerUp: bool,
    notifierUp: bool)

  predicate ValidSlot(s: Shared) { |s.slot| == BUFFER_SIZE }

  /** The slot as a C string. */
  function SlotText(s: Shared): seq<char> { CStr(s.slot) }

  /** The state when the processes have started: a freshly created segment
      is zero-filled, every `last_data` is "", and the drain worker runs
      only when it could open both the log and the FIFO. */
  function Boot(logOpened: bool, fifoOpened: bool): (s: Shared)
    ensures ValidSlot(s) && SlotText(s) == [] && s.seen == []
  {
    Shared(Zeros(BUFFER_SIZE), [], [], [], [], [], logOpened && fifoOpened, true)
  }

  // ------------------------------------------------------------ hand-off

  /** One line copied into the slot under the handler's lock. */
  function Write(s: Shared, line: seq<char>): (r: Shared)
    ensures ValidSlot(r)
    ensures r.(slot := s.slot) == s
  {
    s.(slot := Strncpy(line, BUFFER_SIZE))
  }

  /** A line that fits reads back from the slot as itself, whatever the
      slot held before. */
  lemma WriteReadsBack(s: Shared, line: seq<char>)
    requires NUL !in line && |line| <= BUFFER_SIZE
    ensures SlotText(Write(s, line)) == line
  {
    if |line| < BUFFER_SIZE {
      StrncpyReadsBack(line, BUFFER_SIZE);
    } else {
      StrncpyFullLength(line, BUFFER_SIZE);
      CStrOfPlain(line);
    }
  }

  /** A line that fills the slot is copied without a terminator: the slot
      holds the line's first 1024 bytes and no NUL at all, so a C string
      read of the slot finds no end inside the segment. */
  lemma FullLineUnterminated(s: Shared, line: seq<char>)
    requires NUL !in line && |line| >= BUFFER_SIZE
    ensures Write(s, line).slot == line[..BUFFER_SIZE]
    ensures NUL !in Write(s, line).slot
  {
    CStrOfPlain(line);
  }

  /** Lines written one after the other. */
  function WriteAll(s: Shared, lines: seq<seq<char>>): (r: Shared)
    ensures lines == [] ==> r == s
    ensures lines != [] ==> r == Write(s, lines[|lines| - 1])
  {
    if lines == [] then s else Write(WriteAll(s, lines[..|lines| - 1]), lines[|lines| - 1])
  }

  /** The lines `strtok` finds in a received chunk: the chunk is
      NUL-terminated after the received bytes, so only its C string is
      split. */
  function ChunkLines(chunk: seq<char>): (ls: seq<seq<char>>)
    ensures forall i :: 0 <= i < |ls| ==> IsLine(ls[i])
    ensures forall i :: 0 <= i < |ls| ==> |ls[i]| <= |chunk|
  {
    var ls := Tokens(CStr(chunk));
    assert forall i :: 0 <= i < |ls| ==> NUL !in ls[i];
    ls
  }

  /** One iteration of the handler's receive loop. */
  function Receive(s: Shared, chunk: seq<char>): (r: Shared)
  {
    WriteAll(s, ChunkLines(chunk))
  }

  /** After a chunk with at least one line the slot holds that chunk's last
      line and nothing of what it held before; a chunk of newlines only
      leaves the slot alone. Nothing else changes. */
  lemma ReceiveLastLine(s: Shared, chunk: seq<char>)
    requires |chunk| <= BUFFER_SIZE
    ensures var ls := ChunkLines(chunk);
            var r := Receive(s, chunk);
            && (ls == [] ==> r == s)
            && (ls != [] ==> ValidSlot(r) && SlotText(r) == ls[|ls| - 1] && r.(slot := s.slot) == s)
  {
    var ls := ChunkLines(chunk);
    if ls != [] {
      WriteReadsBack(WriteAll(s, ls[..|ls| - 1]), ls[|ls| - 1]);
    }
  }

  // ------------------------------------------------------------ drain

  /** How the drain worker's `write` to the database FIFO ends. A record is
      at most 1024 bytes, within the size a pipe writes atomically, so it
      arrives whole or not at all. `Failed`: `write` returns an error, which
      the worker ignores. `Killed`: no process holds the FIFO open for
      reading, and the SIGPIPE this raises, which the worker does not
      handle, ends the drain process after the log line and before the
      slot is cleared. */
  datatype WriteOutcome = Sent | Failed | Killed

  /** One pass of the drain worker's loop, with the outcome of its FIFO
      write. */
  function Drain(s: Shared, o: WriteOutcome): (r: Shared)
  {
    var t := SlotText(s);
    if !s.drainerUp || t == [] then s
    else if o == Killed then s.(log := s.log + t + "\n", drainerUp := false)
    else s.(log := s.log + t + "\n", fifo := s.fifo + (if o == Sent then t else []),
            lastDrained := t, slot := Zeros(BUFFER_SIZE))
  }

  lemma ZeroSlotEmpty()
    ensures CStr(Zeros(BUFFER_SIZE)) == []
  {
    assert Zeros(BUFFER_SIZE)[0] == NUL;
    IndexOfUnique(Zeros(BUFFER_SIZE), NUL, 0);
  }

  /** An empty slot is left alone: no log line, no FIFO bytes. */
  lemma DrainEmpty(s: Shared, o: WriteOutcome)
    requires SlotText(s) == []
    ensures Drain(s, o) == s
  {
  }

  /** A non-empty slot is logged as one line whatever the write does. A
      write that is not fatal leaves the FIFO with the record appended
      without a separator, or unchanged when it failed, and the slot cleared
      to zeros; a fatal one stops the worker with the slot still full. */
  lemma DrainRecord(s: Shared, o: WriteOutcome)
    requires s.drainerUp && SlotText(s) != []
    ensures Drain(s, o).log == s.log + SlotText(s) + "\n"
    ensures o == Sent ==> Drain(s, o).fifo == s.fifo + SlotText(s)
    ensures o != Sent ==> Drain(s, o).fifo == s.fifo
    ensures o != Killed ==> Drain(s, o).slot == Zeros(BUFFER_SIZE) && SlotText(Drain(s, o)) == []
    ensures o != Killed ==> Drain(s, o).drainerUp && Drain(s, o).lastDrained == SlotText(s)
    ensures o == Killed ==> Drain(s, o).slot == s.slot && !Drain(s, o).drainerUp
    ensures Drain(s, o).notices == s.notices && Drain(s, o).seen == s.seen
  {
    ZeroSlotEmpty();
  }

  /** A value is drained once: the pass right after a drain does nothing,
      whatever either write does. */
  lemma DrainIdempotent(s: Shared, o: WriteOutcome, o2: WriteOutcome)
    ensures Drain(Drain(s, o), o2) == Drain(s, o)
  {
    if s.drainerUp && SlotText(s) != [] {
      ZeroSlotEmpty();
    }
  }

  // ------------------------------------------------------------ notifier

  /** One pass of the notifier's loop. The text is copied into `seen`
      before the FIFO is opened; a failed open ends the process. */
  function Check(s: Shared, openOk: bool): (r: Shared)
  {
    var t := SlotText(s);
    if !s.notifierUp || t == s.seen then s
    else if openOk then s.(seen := t, notices := s.notices + NOTICE)
    else s.(seen := t, notifierUp := false)
  }

  /** A notice, 15 bytes long, is sent exactly when the running notifier
      sees a slot text different from the last one; the slot, the log and
      the FIFO are never touched. */
  lemma CheckNotifies(s: Shared, openOk: bool)
    ensures var r := Check(s, openOk);
            && (r.notices != s.notices <==> s.notifierUp && SlotText(s) != s.seen && openOk)
            && (r.notices == s.notices || (r.notices == s.notices + NOTICE && |NOTICE| == 15))
            && r.slot == s.slot && r.log == s.log && r.fifo == s.fifo
            && (s.notifierUp ==> r.seen == SlotText(s))
  {
  }

  /** A second check with the slot unchanged sends nothing. */
  lemma CheckIdempotent(s: Shared, first: bool, second: bool)
    ensures Check(Check(s, first), second) == Check(s, first)
  {
  }

  /** The drain clearing a slot that was seen non-empty is itself a change
      the notifier reports. */
  lemma ClearedSlotNotifies(s: Shared, o: WriteOutcome)
    requires ValidSlot(s) && s.drainerUp && s.notifierUp && o != Killed
    requires SlotText(s) != [] && s.seen == SlotText(s)
    ensures Check(Drain(s, o), true).notices == s.notices + NOTICE
  {
    ZeroSlotEmpty();
  }

  /** A slot that is empty when the processes start is never reported. */
  lemma EmptyAtStartupSilent(logOpened: bool, fifoOpened: bool, openOk: bool)
    ensures Check(Boot(logOpened, fifoOpened), openOk) == Boot(logOpened, fifoOpened)
  {
    ZeroSlotEmpty();
  }

  // ------------------------------------------------------------ runs

  /** What one process does next. `Interrupt` is the signal that clears the
      notifier's `running` flag. */
  datatype Event = Recv(chunk: seq<char>) | DrainPass(outcome: WriteOutcome) | CheckPass(openOk: bool) | Interrupt

  /** `recv` into a 1024-byte buffer never returns more than 1024 bytes. */
  predicate ValidEvents(es: seq<Event>) {
    forall i :: 0 <= i < |es| ==> (es[i].Recv? ==> |es[i].chunk| <= BUFFER_SIZE)
  }

  function StepOf(s: Shared, e: Event): Shared {
    match e
    case Recv(chunk) => Receive(s, chunk)
    case DrainPass(o) => Drain(s, o)
    case CheckPass(openOk) => Check(s, openOk)
    case Interrupt => s.(notifierUp := false)
  }

  /** The state after the events, in order. */
  function Run(s: Shared, es: seq<Event>): Shared
  {
    if es == [] then s else StepOf(Run(s, es[..|es| - 1]), es[|es| - 1])
  }

  /** Every line the handlers copied into the slot, in order. */
  function Written(es: seq<Event>): seq<seq<char>>
  {
    if es == [] then []
    else
      var e := es[|es| - 1];
      Written(es[..|es| - 1]) + (if e.Recv? then ChunkLines(e.chunk) else [])
  }

  /** Every record the drain worker took out of the slot and logged, in
      order. */
  function Drained(s: Shared, es: seq<Event>): seq<seq<char>>
  {
    if es == [] then []
    else
      Drained(s, es[..|es| - 1]) + Taken(Run(s, es[..|es| - 1]), es[|es| - 1])
  }

  /** The drained records whose FIFO write delivered them, in order. */
  function Forwarded(s: Shared, es: seq<Event>): seq<seq<char>>
  {
    if es == [] then []
    else
      Forwarded(s, es[..|es| - 1]) + Delivered(Run(s, es[..|es| - 1]), es[|es| - 1])
  }

  /** `a` is `b` with some elements left out: every element of `b` is used
      at most once, in order. */
  predicate Subseq(a: seq<seq<char>>, b: seq<seq<char>>)
    decreases |b|
  {
    if a == [] then true
    else if b == [] then false
    else if a[|a| - 1] == b[|b| - 1] then Subseq(a[..|a| - 1], b[..|b| - 1]) || Subseq(a, b[..|b| - 1])
    else Subseq(a, b[..|b| - 1])
  }

  lemma {:induction false} SubseqAppend(a: seq<seq<char>>, b: seq<seq<char>>, c: seq<seq<char>>)
    requires Subseq(a, b)
    ensures Subseq(a, b + c)
    decreases |c|
  {
    if c != [] {
      SubseqAppend(a, b, c[..|c| - 1]);
      assert (b + c)[..|b + c| - 1] == b + c[..|c| - 1];
    } else {
      assert b + c == b;
    }
  }

  lemma SubseqBoth(a: seq<seq<char>>, b: seq<seq<char>>, x: seq<char>)
    requires Subseq(a, b)
    ensures Subseq(a + [x], b + [x])
  {
    assert (a + [x])[..|a|] == a;
    assert (b + [x])[..|b|] == b;
  }

  /** What a run keeps true, for a run that started in `s` and reached `r`
      after writing `w`, draining (and logging) `d` and delivering `f` to
      the FIFO: the log holds exactly the drained records, newline-
      terminated; the FIFO holds the delivered ones back to back, and they
      are the drained records with some left out; the drained records are
      the written lines with some left out. While a running worker has a
      line in the slot, that line is the last one written and no record
      came from it. */
  predicate Accounted(s: Shared, r: Shared, w: seq<seq<char>>, d: seq<seq<char>>, f: seq<seq<char>>) {
    && ValidSlot(r)
    && r.log == s.log + JoinLines(d)
    && r.fifo == s.fifo + Concat(f)
    && Subseq(f, d)
    && Subseq(d, w)
    && (r.drainerUp && SlotText(r) != [] ==> w != [] && w[|w| - 1] == SlotText(r) && Subseq(d, w[..|w| - 1]))
  }

  lemma JoinLinesAppend(ls: seq<seq<char>>, l: seq<char>)
    ensures JoinLines(ls + [l]) == JoinLines(ls) + l + "\n"
  {
    if ls != [] {
      assert (ls + [l])[1..] == ls[1..] + [l];
      JoinLinesAppend(ls[1..], l);
    }
  }

  lemma ReceiveKeeps(s: Shared, b: Shared, w: seq<seq<char>>, d: seq<seq<char>>, f: seq<seq<char>>, chunk: seq<char>)
    requires |chunk| <= BUFFER_SIZE
    requires Accounted(s, b, w, d, f)
    ensures Accounted(s, Receive(b, chunk), w + ChunkLines(chunk), d, f)
  {
    var ls := ChunkLines(chunk);
    ReceiveLastLine(b, chunk);
    if ls == [] {
      assert w + ls == w;
    } else {
      assert IsLine(ls[|ls| - 1]);
      LinesKeep(s, b, Receive(b, chunk), w, d, f, ls);
    }
  }

  /** Writing lines leaves the last one in the slot and the earlier ones
      among the lines that can no longer be drained. */
  lemma LinesKeep(s: Shared, b: Shared, r: Shared, w: seq<seq<char>>, d: seq<seq<char>>, f: seq<seq<char>>, ls: seq<seq<char>>)
    requires Accounted(s, b, w, d, f)
    requires ls != [] && ls[|ls| - 1] != []
    requires ValidSlot(r) && SlotText(r) == ls[|ls| - 1] && r.(slot := b.slot) == b
    ensures Accounted(s, r, w + ls, d, f)
  {
    var w2 := w + ls;
    var early := ls[..|ls| - 1];
    assert w2[..|w2| - 1] == w + early;
    SubseqAppend(d, w, ls);
    if b.drainerUp {
      if SlotText(b) == [] {
        SubseqAppend(d, w, early);
      } else {
        var v := w[..|w| - 1];
        SubseqAppend(d, v, [w[|w| - 1]] + early);
        assert v + ([w[|w| - 1]] + early) == w + early;
      }
    }
  }

  lemma DrainKeeps(s: Shared, b: Shared, w: seq<seq<char>>, d: seq<seq<char>>, f: seq<seq<char>>, o: WriteOutcome)
    requires Accounted(s, b, w, d, f)
    ensures Accounted(s, Drain(b, o), w, d + Taken(b, DrainPass(o)), f + Delivered(b, DrainPass(o)))
  {
    var t := SlotText(b);
    if b.drainerUp && t != [] {
      var sent := if o == Sent then [t] else [];
      var r := Drain(b, o);
      DrainRecord(b, o);
      assert r.fifo == b.fifo + Concat(sent) by {
        if o == Sent { ConcatLast([], t); }
      }
      RecordAccounted(s, b, r, w, d, f, t, sent);
      assert Taken(b, DrainPass(o)) == [t];
      assert Delivered(b, DrainPass(o)) == sent;
    } else {
      assert d + [] == d && f + [] == f;
    }
  }

  /** The account after a drain pass that logged `t` and delivered `sent`,
      for any state `r` the pass can leave. */
  lemma RecordAccounted(s: Shared, b: Shared, r: Shared, w: seq<seq<char>>, d: seq<seq<char>>, f: seq<seq<char>>,
                        t: seq<char>, sent: seq<seq<char>>)
    requires Accounted(s, b, w, d, f)
    requires b.drainerUp && SlotText(b) == t && t != []
    requires sent == [] || sent == [t]
    requires ValidSlot(r) && r.log == b.log + (t + "\n") && r.fifo == b.fifo + Concat(sent)
    requires r.drainerUp ==> SlotText(r) == []
    ensures Accounted(s, r, w, d + [t], f + sent)
  {
    RecordKeeps(w, d, f, t, sent);
    Assoc(s.log, JoinLines(d), t + "\n");
    Assoc(s.fifo, Concat(f), Concat(sent));
  }

  /** The sequence facts behind one drained record `t`, the last line
      written, which the FIFO receives when `sent` is `[t]`. */
  lemma RecordKeeps(w: seq<seq<char>>, d: seq<seq<char>>, f: seq<seq<char>>, t: seq<char>, sent: seq<seq<char>>)
    requires w != [] && w[|w| - 1] == t && Subseq(d, w[..|w| - 1]) && Subseq(f, d)
    requires sent == [] || sent == [t]
    ensures JoinLines(d + [t]) == JoinLines(d) + (t + "\n")
    ensures Concat(f + sent) == Concat(f) + Concat(sent)
    ensures Concat(sent) == if sent == [] then [] else t
    ensures Subseq(d + [t], w) && Subseq(f + sent, d + [t])
  {
    JoinLinesAppend(d, t);
    Assoc(JoinLines(d), t, "\n");
    SubseqBoth(d, w[..|w| - 1], t);
    assert w[..|w| - 1] + [t] == w;
    if sent == [] {
      assert f + sent == f;
      SubseqAppend(f, d, [t]);
    } else {
      ConcatLast(f, t);
      SubseqBoth(f, d, t);
      assert Concat([t]) == t by { ConcatLast([], t); }
    }
  }

  lemma {:induction false} RunKeepsInvariant(s: Shared, es: seq<Event>)
    requires ValidSlot(s) && SlotText(s) == []
    requires ValidEvents(es)
    ensures Accounted(s, Run(s, es), Written(es), Drained(s, es), Forwarded(s, es))
  {
    if es == [] {
      assert Subseq([], []);
    } else {
      var pre := es[..|es| - 1];
      var e := es[|es| - 1];
      assert ValidEvents(pre);
      RunKeepsInvariant(s, pre);
      var b := Run(s, pre);
      assert Run(s, es) == StepOf(b, e);
      assert Written(es) == Written(pre) + Lines(e);
      assert Drained(s, es) == Drained(s, pre) + Taken(b, e);
      assert Forwarded(s, es) == Forwarded(s, pre) + Delivered(b, e);
      EventKeeps(s, b, Written(pre), Drained(s, pre), Forwarded(s, pre), e);
    }
  }

  /** The lines an event writes to the slot. */
  function Lines(e: Event): seq<seq<char>> {
    if e.Recv? then ChunkLines(e.chunk) else []
  }

  /** The record an event takes out of the slot and logs in state `b`. */
  function Taken(b: Shared, e: Event): seq<seq<char>> {
    if e.DrainPass? && b.drainerUp && SlotText(b) != [] then [SlotText(b)] else []
  }

  /** The record an event delivers to the FIFO in state `b`. */
  function Delivered(b: Shared, e: Event): seq<seq<char>> {
    if e.DrainPass? && e.outcome == Sent then Taken(b, e) else []
  }

  /** Every kind of event keeps the account. */
  lemma EventKeeps(s: Shared, b: Shared, w: seq<seq<char>>, d: seq<seq<char>>, f: seq<seq<char>>, e: Event)
    requires Accounted(s, b, w, d, f)
    requires e.Recv? ==> |e.chunk| <= BUFFER_SIZE
    ensures Accounted(s, StepOf(b, e), w + Lines(e), d + Taken(b, e), f + Delivered(b, e))
  {
    match e {
      case Recv(chunk) =>
        assert d + [] == d && f + [] == f;
        ReceiveKeeps(s, b, w, d, f, chunk);
      case DrainPass(o) =>
        assert w + [] == w;
        DrainKeeps(s, b, w, d, f, o);
      case CheckPass(openOk) =>
        assert w + [] == w && d + [] == d && f + [] == f;
        CheckNotifies(b, openOk);
      case Interrupt =>
        assert w + [] == w && d + [] == d && f + [] == f;
    }
  }

  /** Each line written is drained at most once, and drained records come
      out in the order the lines were written. */
  lemma DrainedAtMostOnce(s: Shared, es: seq<Event>)
    requires ValidSlot(s) && SlotText(s) == []
    requires ValidEvents(es)
    ensures Subseq(Drained(s, es), Written(es))
  {
    RunKeepsInvariant(s, es);
  }

  /** The log file reads back, line by line, as exactly the drained
      records. The FIFO carries the delivered records with nothing between
      them, and they are the drained records with those whose write did not
      deliver left out; when every write delivers, that is all of them. */
  lemma LogHoldsDrainedRecords(es: seq<Event>, logOpened: bool, fifoOpened: bool)
    requires ValidEvents(es)
    ensures var s := Boot(logOpened, fifoOpened);
            var d := Drained(s, es);
            var f := Forwarded(s, es);
            && Run(s, es).log == JoinLines(d)
            && Tokens(Run(s, es).log) == d
            && Run(s, es).fifo == Concat(f)
            && Subseq(f, d)
            && (AllSent(es) ==> f == d)
  {
    var s := Boot(logOpened, fifoOpened);
    RunKeepsInvariant(s, es);
    DrainedAtMostOnce(s, es);
    WrittenAreLines(es);
    SubseqKeeps(Drained(s, es), Written(es));
    TokensJoinLines(Drained(s, es));
    AllSentForwardsAll(s, es);
  }

  /** Every drain pass among the events had its write delivered. */
  predicate AllSent(es: seq<Event>) {
    forall i :: 0 <= i < |es| ==> (es[i].DrainPass? ==> es[i].outcome == Sent)
  }

  lemma {:induction false} AllSentForwardsAll(s: Shared, es: seq<Event>)
    ensures AllSent(es) ==> Forwarded(s, es) == Drained(s, es)
  {
    if es != [] {
      AllSentForwardsAll(s, es[..|es| - 1]);
    }
  }

  lemma {:induction false} WrittenAreLines(es: seq<Event>)
    ensures forall i :: 0 <= i < |Written(es)| ==> IsLine(Written(es)[i])
  {
    if es != [] {
      WrittenAreLines(es[..|es| - 1]);
    }
  }

  lemma {:induction false} SubseqKeeps(a: seq<seq<char>>, b: seq<seq<char>>)
    requires Subseq(a, b)
    requires forall i :: 0 <= i < |b| ==> IsLine(b[i])
    ensures forall i :: 0 <= i < |a| ==> IsLine(a[i])
    decreases |b|
  {
    if a != [] {
      if a[|a| - 1] == b[|b| - 1] && Subseq(a[..|a| - 1], b[..|b| - 1]) {
        SubseqKeeps(a[..|a| - 1], b[..|b| - 1]);
        assert forall i :: 0 <= i < |a| - 1 ==> a[i] == a[..|a| - 1][i];
      } else {
        SubseqKeeps(a, b[..|b| - 1]);
      }
    }
  }

  /** Events other than drains take no record out of the slot. */
  lemma {:induction false} NoDrainNoRecords(s: Shared, pre: seq<Event>, mid: seq<Event>)
    requires forall i :: 0 <= i < |mid| ==> !mid[i].DrainPass?
    ensures Drained(s, pre + mid) == Drained(s, pre)
    decreases |mid|
  {
    if mid == [] {
      assert pre + mid == pre;
    } else {
      assert (pre + mid)[..|pre + mid| - 1] == pre + mid[..|mid| - 1];
      NoDrainNoRecords(s, pre, mid[..|mid| - 1]);
    }
  }

  /** Overwrite: of lines written between two drains only the last one is
      ever drained. Whatever the first chunk and the events in between
      wrote (other than by draining), a drain right after a chunk with
      lines takes exactly that chunk's last line. */
  lemma OnlyLastWriteDrained(s: Shared, pre: seq<Event>, first: seq<char>, mid: seq<Event>, last: seq<char>, o: WriteOutcome)
    requires Run(s, pre).drainerUp
    requires |last| <= BUFFER_SIZE && ChunkLines(last) != []
    requires forall i :: 0 <= i < |mid| ==> !mid[i].DrainPass?
    ensures var es := pre + [Recv(first)] + mid + [Recv(last), DrainPass(o)];
            var ls := ChunkLines(last);
            Drained(s, es) == Drained(s, pre) + [ls[|ls| - 1]]
  {
    var x := [Recv(first)] + mid;
    var q := pre + x;
    var es := pre + [Recv(first)] + mid + [Recv(last), DrainPass(o)];
    assert es == q + [Recv(last), DrainPass(o)];
    assert forall i :: 0 <= i < |x| ==> !x[i].DrainPass?;
    NoDrainNoRecords(s, pre, x);
    DrainerStaysUp(s, pre, x);
    DrainAfterReceive(s, q, last, o);
  }

  /** A drain right after a chunk with lines takes that chunk's last line,
      when the drain worker is up. */
  lemma DrainAfterReceive(s: Shared, p: seq<Event>, last: seq<char>, o: WriteOutcome)
    requires |last| <= BUFFER_SIZE && ChunkLines(last) != []
    ensures var ls := ChunkLines(last);
            Run(s, p).drainerUp ==> Drained(s, p + [Recv(last), DrainPass(o)]) == Drained(s, p) + [ls[|ls| - 1]]
  {
    var es := p + [Recv(last), DrainPass(o)];
    var upTo := p + [Recv(last)];
    assert es[..|es| - 1] == upTo;
    assert upTo[..|upTo| - 1] == p;
    ReceiveLastLine(Run(s, p), last);
    assert Run(s, upTo) == Receive(Run(s, p), last);
    assert Drained(s, upTo) == Drained(s, p);
  }

  /** Only a fatal FIFO write stops the drain worker, and nothing starts
      it. */
  lemma {:induction false} DrainerStaysUp(s: Shared, pre: seq<Event>, mid: seq<Event>)
    requires forall i :: 0 <= i < |mid| ==> mid[i] != DrainPass(Killed)
    ensures Run(s, pre + mid).drainerUp == Run(s, pre).drainerUp
    decreases |mid|
  {
    if mid == [] {
      assert pre + mid == pre;
    } else {
      assert (pre + mid)[..|pre + mid| - 1] == pre + mid[..|mid| - 1];
      DrainerStaysUp(s, pre, mid[..|mid| - 1]);
    }
  }

  // ------------------------------------------------------------ more laws

  /** The log and both FIFOs are only ever appended to. */
  lemma {:induction false} OnlyAppends(s: Shared, es: seq<Event>)
    ensures s.log <= Run(s, es).log && s.fifo <= Run(s, es).fifo && s.notices <= Run(s, es).notices
  {
    if es != [] {
      OnlyAppends(s, es[..|es| - 1]);
      var b := Run(s, es[..|es| - 1]);
      match es[|es| - 1] {
        case Recv(chunk) =>
          assert Run(s, es) == Receive(b, chunk);
          if ChunkLines(chunk) != [] {
            assert Receive(b, chunk).(slot := b.slot) == b;
          }
        case DrainPass(o) =>
        case CheckPass(openOk) =>
        case Interrupt =>
      }
    }
  }

  /** A drain worker that could not open the log or the FIFO never writes
      either; a stopped notifier never sends another notice. */
  lemma {:induction false} StoppedStaysSilent(s: Shared, es: seq<Event>)
    ensures !s.drainerUp ==> Run(s, es).log == s.log && Run(s, es).fifo == s.fifo
    ensures !s.notifierUp ==> Run(s, es).notices == s.notices
  {
    if es != [] {
      StoppedStaysSilent(s, es[..|es| - 1]);
      var b := Run(s, es[..|es| - 1]);
      NotifierStaysDown(s, es[..|es| - 1]);
      match es[|es| - 1] {
        case Recv(chunk) =>
          if ChunkLines(chunk) != [] {
            assert Receive(b, chunk).(slot := b.slot) == b;
          }
        case DrainPass(o) =>
        case CheckPass(openOk) =>
        case Interrupt =>
      }
    }
  }

  lemma {:induction false} NotifierStaysDown(s: Shared, es: seq<Event>)
    ensures !s.notifierUp ==> !Run(s, es).notifierUp
    ensures !s.drainerUp ==> !Run(s, es).drainerUp
  {
    if es != [] {
      NotifierStaysDown(s, es[..|es| - 1]);
      var b := Run(s, es[..|es| - 1]);
      match es[|es| - 1] {
        case Recv(chunk) =>
          if ChunkLines(chunk) != [] {
            assert Receive(b, chunk).(slot := b.slot) == b;
          }
        case DrainPass(o) =>
        case CheckPass(openOk) =>
        case Interrupt =>
      }
    }
  }

  /** A newline-terminated line is one chunk line. */
  lemma OneLineChunk(a: seq<char>)
    requires IsLine(a)
    ensures ChunkLines(a + "\n") == [a]
  {
    assert NUL !in a + "\n";
    CStrOfPlain(a + "\n");
    assert JoinLines([a]) == a + "\n";
    TokensJoinLines([a]);
  }

  /** Nothing carries over between receive calls: a line split across two
      chunks is handed off as two lines. */
  lemma SplitLineTwoWrites(x: seq<char>, y: seq<char>)
    requires IsLine(x) && IsLine(y)
    ensures Written([Recv(x), Recv(y + "\n")]) == [x, y]
  {
    CStrOfPlain(x);
    TokensOfFragment(x);
    OneLineChunk(y);
    var es := [Recv(x), Recv(y + "\n")];
    assert es[..1] == [Recv(x)];
    assert [Recv(x)][..0] == [];
    assert Written([Recv(x)]) == [] + [x];
    assert Written(es) == Written(es[..1]) + [y];
  }

  /** The drain worker compares nothing: the same line sent twice, with a
      drain after each, is logged twice, unless the first write ended the
      worker. */
  lemma SameLineLoggedTwice(s: Shared, a: seq<char>, o1: WriteOutcome, o2: WriteOutcome)
    requires ValidSlot(s) && s.drainerUp && IsLine(a) && |a| < BUFFER_SIZE && o1 != Killed
    ensures var es := [Recv(a + "\n"), DrainPass(o1), Recv(a + "\n"), DrainPass(o2)];
            Run(s, es).log == s.log + a + "\n" + a + "\n"
  {
    OneLineChunk(a);
    var c := a + "\n";
    var es := [Recv(c), DrainPass(o1), Recv(c), DrainPass(o2)];
    var s1 := Receive(s, c);
    ReceiveLastLine(s, c);
    DrainRecord(s1, o1);
    var s2 := Drain(s1, o1);
    var s3 := Receive(s2, c);
    ReceiveLastLine(s2, c);
    DrainRecord(s3, o2);
    assert es[..1] == [Recv(c)] && es[..2] == [Recv(c), DrainPass(o1)] && es[..3] == [Recv(c), DrainPass(o1), Recv(c)];
    assert es[..3][..2] == es[..2] && es[..2][..1] == es[..1];
    assert [Recv(c)][..0] == [];
    assert Run(s, es[..1]) == s1;
    assert Run(s, es[..2]) == s2;
    assert Run(s, es[..3]) == s3;
  }

  // ------------------------------------------------------------ processes

  /** Handing off the next token keeps the loop's account of the tokens
      and of the shared state. */
  lemma HandedOff(s: Shared, lines: seq<seq<char>>, line: seq<char>, rest: seq<seq<char>>, total: seq<seq<char>>)
    requires lines + ([line] + rest) == total
    ensures (lines + [line]) + rest == total
    ensures WriteAll(s, lines + [line]) == Write(WriteAll(s, lines), line)
  {
    assert (lines + [line])[..|lines|] == lines;
  }

  /** `strtok`'s scan for the end of the token that starts at `p`: the
      next newline, or the end of the string. */
  method LineEnd(text: seq<char>, p: nat) returns (q: nat)
    requires p < |text| && text[p] != '\n'
    ensures p < q <= |text| && '\n' !in text[p..q]
    ensures q == |text| || text[q] == '\n'
  {
    q := p;
    while q < |text| && text[q] != '\n'
      invariant p <= q <= |text|
      invariant '\n' !in text[p..q]
    {
      assert text[p..q + 1] == text[p..q] + [text[q]];
      q := q + 1;
    }
  }

  /** The three processes over one shared segment. `slot` is the segment's
      1024-byte buffer; the other fields are what the drain worker and the
      notifier hold or have produced. */
  class Ingest {
    const slot: array<char>
    var log: seq<char>
    var fifo: seq<char>
    var lastDrained: seq<char>
    var seen: seq<char>
    var notices: seq<char>
    var drainerUp: bool
    var notifierUp: bool

    function State(): Shared
      reads this, slot
    {
      Shared(slot[..], log, fifo, lastDrained, seen, notices, drainerUp, notifierUp)
    }

    predicate Valid()
      reads this
    {
      slot.Length == BUFFER_SIZE
    }

    /** A zero-filled segment; the worker starts only if the log and the FIFO
        opened. */
    constructor (logOpened: bool, fifoOpened: bool)
      ensures Valid() && fresh(slot)
      ensures State() == Boot(logOpened, fifoOpened)
    {
      slot := new char[BUFFER_SIZE](_ => NUL);
      log, fifo, lastDrained, seen, notices := [], [], [], [], [];
      drainerUp, notifierUp := logOpened && fifoOpened, true;
      new;
      assert slot[..] == Zeros(BUFFER_SIZE);
    }

    /** `strncpy(shm_data->data, line, BUFFER_SIZE)`: copy up to the line's
        NUL or the slot's end, then pad with zeros. */
    method Handoff(line: seq<char>)
      requires Valid()
      modifies slot
      ensures State() == Write(old(State()), line)
    {
      var i := 0;
      while i < BUFFER_SIZE && i < |line| && line[i] != NUL
        invariant 0 <= i <= BUFFER_SIZE && i <= |line|
        invariant NUL !in line[..i]
        invariant slot[..i] == line[..i]
        invariant forall k :: i <= k < BUFFER_SIZE ==> slot[k] == old(slot[k])
      {
        slot[i] := line[i];
        assert line[..i + 1] == line[..i] + [line[i]];
        i := i + 1;
      }
      ghost var t := CStr(line);
      if i < |line| && line[i] == NUL {
        IndexOfUnique(line, NUL, i);
      } else if i == |line| {
        IndexOfUnique(line, NUL, i);
      }
      assert i == BUFFER_SIZE || i == |t|;
      assert i <= |t|;
      assert t[..i] == line[..i];
      while i < BUFFER_SIZE
        invariant i <= BUFFER_SIZE
        invariant forall k :: 0 <= k < i ==> slot[k] == if k < |t| then t[k] else NUL
      {
        slot[i] := NUL;
        i := i + 1;
      }
      assert slot[..] == Strncpy(line, BUFFER_SIZE);
    }

    /** One iteration of the receive loop: the chunk is cut at its first NUL
        and each line `strtok` finds is handed off in order. Returns the
        lines handed off. */
    method HandleChunk(chunk: seq<char>) returns (lines: seq<seq<char>>)
      requires Valid()
      modifies slot
      ensures lines == ChunkLines(chunk)
      ensures State() == Receive(old(State()), chunk)
    {
      var text := CStr(chunk);
      lines := [];
      var p := 0;
      assert text[0..] == text;
      while p < |text|
        invariant 0 <= p <= |text|
        invariant lines + Tokens(text[p..]) == Tokens(text)
        invariant State() == WriteAll(old(State()), lines)
      {
        if text[p] == '\n' {
          TokensNewline(text, p);
          p := p + 1;
        } else {
          var q := LineEnd(text, p);
          TokensRun(text, p, q);
          var line := text[p..q];
          Handoff(line);
          HandedOff(old(State()), lines, line, Tokens(text[q..]), Tokens(text));
          lines := lines + [line];
          p := q;
        }
      }
      assert text[|text|..] == [];
      assert lines + [] == lines;
    }

    /** The handler's whole receive loop over the chunks `recv` returned
        before it reported the end of the connection. `tbrecv` is reset for
        every chunk, so it ends as the last chunk's size; with no chunk it is
        never assigned. */
    method HandleClient(chunks: seq<seq<char>>) returns (tbrecv: Option<nat>)
      requires Valid()
      modifies slot
      ensures State() == Run(old(State()), Receives(chunks))
      ensures chunks == [] <==> tbrecv == None
      ensures chunks != [] ==> tbrecv == Some(|chunks[|chunks| - 1]|)
    {
      tbrecv := None;
      var k := 0;
      while k < |chunks|
        invariant 0 <= k <= |chunks|
        invariant State() == Run(old(State()), Receives(chunks[..k]))
        invariant k == 0 <==> tbrecv == None
        invariant k > 0 ==> tbrecv == Some(|chunks[k - 1]|)
      {
        var _ := HandleChunk(chunks[k]);
        assert chunks[..k + 1][..k] == chunks[..k];
        tbrecv := Some(|chunks[k]|);
        k := k + 1;
      }
      assert chunks[..k] == chunks;
    }

    /** `strlen` of the slot, never reading past the segment. */
    method SlotLength() returns (n: nat)
      requires Valid()
      ensures n == |SlotText(State())|
    {
      n := 0;
      while n < BUFFER_SIZE && slot[n] != NUL
        invariant n <= BUFFER_SIZE
        invariant NUL !in slot[..n]
      {
        assert slot[..n + 1] == slot[..n] + [slot[n]];
        n := n + 1;
      }
      IndexOfUnique(slot[..], NUL, n);
    }

    /** One pass of the drain worker: log, write, then clear. The write's
        result is not looked at; a fatal write ends the worker before the
        slot is cleared. */
    method DrainPass(o: WriteOutcome)
      requires Valid()
      modifies this, slot
      ensures State() == Drain(old(State()), o)
    {
      if !drainerUp {
        return;
      }
      ghost var s0 := State();
      var n := SlotLength();
      if n > 0 {
        var t := slot[..n];
        assert t == SlotText(s0) && t != [];
        log := log + t + "\n";
        if o == Killed {
          drainerUp := false;
          return;
        }
        if o == Sent {
          fifo := fifo + t;
        }
        lastDrained := t;
        var i := 0;
        while i < BUFFER_SIZE
          modifies slot
          invariant i <= BUFFER_SIZE
          invariant forall k :: 0 <= k < i ==> slot[k] == NUL
        {
          slot[i] := NUL;
          i := i + 1;
        }
        assert slot[..] == Zeros(BUFFER_SIZE);
        assert State() == s0.(log := s0.log + t + "\n", fifo := s0.fifo + (if o == Sent then t else []), lastDrained := t, slot := Zeros(BUFFER_SIZE));
      }
    }

    /** One pass of the notifier: `strcmp`, then `strcpy` and a notice when
        the slot changed; a FIFO that cannot be opened ends the process. */
    method CheckPass(openOk: bool)
      requires Valid()
      modifies this
      ensures State() == Check(old(State()), openOk)
    {
      if !notifierUp {
        return;
      }
      var n := SlotLength();
      var t := slot[..n];
      if t != seen {
        seen := t;
        if openOk {
          notices := notices + NOTICE;
        } else {
          notifierUp := false;
        }
      }
    }
  }

  /** The events of one handler's receive loop. */
  function Receives(chunks: seq<seq<char>>): (es: seq<Event>)
    ensures |es| == |chunks|
    ensures forall i :: 0 <= i < |es| ==> es[i] == Recv(chunks[i])
  {
    if chunks == [] then [] else Receives(chunks[..|chunks| - 1]) + [Recv(chunks[|chunks| - 1])]
  }
}
