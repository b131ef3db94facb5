/** The device's UART receive loop. Bytes arrive one at a time; outside a
    message everything but 'D' and 'S' is discarded, 'D' or 'S' starts a
    message, and inside a message every byte is kept until there are
    thirteen, when the message is NUL-terminated, handed to the formatter,
    acknowledged and forgotten. */
module UartFraming {
  import opened Text

  /** The fixed length of a message. */
  const MESSAGE_LENGTH: nat := 13

  /** The bytes that can start a message. */
  predicate Starts(c: char) {
    c == 'D' || c == 'S'
  }

  /** A complete message: thirteen bytes, the first of them a start byte. */
  predicate IsMessage(m: seq<char>) {
    |m| == MESSAGE_LENGTH && Starts(m[0])
  }

  /** The bytes of a message received so far: none when idle, otherwise
      fewer than thirteen beginning with a start byte. */
  predicate Framing(pending: seq<char>) {
    |pending| < MESSAGE_LENGTH && (pending != [] ==> Starts(pending[0]))
  }

  /** One received byte: the pending bytes afterwards and the message it
      completes, if any. */
  function Step(pending: seq<char>, c: char): (r: (seq<char>, Option<seq<char>>))
    requires Framing(pending)
    ensures Framing(r.0)
    ensures r.1.Some? ==> IsMessage(r.1.value) && r.1.value == pending + [c] && r.0 == []
    ensures r.1.None? && pending != [] ==> r.0 == pending + [c]
    ensures pending == [] ==> r.1.None? && r.0 == (if Starts(c) then [c] else [])
  {
    if pending == [] then
      (if Starts(c) then [c] else [], None)
    else
      var p := pending + [c];
      if |p| == MESSAGE_LENGTH then ([], Some(p)) else (p, None)
  }

  /** The pending bytes and the completed messages, in order, after a run
      of received bytes. */
  function Frames(pending: seq<char>, bytes: seq<char>): (r: (seq<char>, seq<seq<char>>))
    requires Framing(pending)
    ensures Framing(r.0)
    ensures forall i :: 0 <= i < |r.1| ==> IsMessage(r.1[i])
    ensures |r.1| <= |bytes|
  {
    if bytes == [] then (pending, [])
    else
      var before := Frames(pending, bytes[..|bytes| - 1]);
      var after := Step(before.0, bytes[|bytes| - 1]);
      (after.0, before.1 + Listed(after.1))
  }

  /** The value of an option as a sequence of at most one element. */
  function Listed<T>(o: Option<T>): (r: seq<T>)
    ensures o.Some? ==> r == [o.value]
    ensures o.None? ==> r == []
  {
    if o.Some? then [o.value] else []
  }

  lemma FramesLast(pending: seq<char>, init: seq<char>, c: char)
    requires Framing(pending)
    ensures var before := Frames(pending, init);
            var after := Step(before.0, c);
            Frames(pending, init + [c]) == (after.0, before.1 + Listed(after.1))
  {
    assert (init + [c])[..|init + [c]| - 1] == init;
  }

  /** Receiving two runs of bytes one after the other. */
  lemma {:induction false} FramesAppend(pending: seq<char>, a: seq<char>, b: seq<char>)
    requires Framing(pending)
    ensures var fa := Frames(pending, a);
            var fb := Frames(fa.0, b);
            Frames(pending, a + b) == (fb.0, fa.1 + fb.1)
    decreases |b|
  {
    var fa := Frames(pending, a);
    if b == [] {
      assert a + b == a;
      assert fa.1 + [] == fa.1;
    } else {
      var b' := b[..|b| - 1];
      var c := b[|b| - 1];
      var ab := a + b';
      assert a + b == ab + [c];
      assert b == b' + [c];
      FramesAppend(pending, a, b');
      var whole := Frames(pending, ab);
      var fb' := Frames(fa.0, b');
      FramesLast(pending, ab, c);
      FramesLast(fa.0, b', c);
      AppendCase(whole, fa.1, fb', Step(fb'.0, c), Frames(pending, ab + [c]), Frames(fa.0, b' + [c]));
    }
  }

  /** The bookkeeping of one step of `FramesAppend`, on plain values. */
  lemma AppendCase(whole: (seq<char>, seq<seq<char>>), ms: seq<seq<char>>, fb: (seq<char>, seq<seq<char>>),
                   st: (seq<char>, Option<seq<char>>), x: (seq<char>, seq<seq<char>>), y: (seq<char>, seq<seq<char>>))
    requires whole == (fb.0, ms + fb.1)
    requires x == (st.0, whole.1 + Listed(st.1))
    requires y == (st.0, fb.1 + Listed(st.1))
    ensures x == (y.0, ms + y.1)
  {
    assert ms + fb.1 + Listed(st.1) == ms + (fb.1 + Listed(st.1));
  }

  /** Bytes that cannot start a message are discarded while idle. */
  lemma {:induction false} IdleDiscards(noise: seq<char>)
    requires forall i :: 0 <= i < |noise| ==> !Starts(noise[i])
    ensures Frames([], noise) == ([], [])
  {
    if noise != [] {
      var init := noise[..|noise| - 1];
      var c := noise[|noise| - 1];
      assert init + [c] == noise;
      assert forall i :: 0 <= i < |init| ==> init[i] == noise[i];
      IdleDiscards(init);
      FramesLast([], init, c);
      assert Step([], c) == ([], None);
    }
  }

  /** The first `k` bytes of a message, start byte included, are held as
      pending: no byte inside a message restarts the framing. */
  lemma {:induction false} MessagePrefix(m: seq<char>, k: nat)
    requires IsMessage(m) && 1 <= k < MESSAGE_LENGTH
    ensures Frames([], m[..k]) == (m[..k], [])
  {
    if k == 1 {
      FramesLast([], [], m[0]);
      assert [] + [m[0]] == m[..1];
    } else {
      MessagePrefix(m, k - 1);
      FramesLast([], m[..k - 1], m[k - 1]);
      assert m[..k - 1] + [m[k - 1]] == m[..k];
    }
  }

  /** A message received from idle is delivered whole, once, and the
      framing is idle again afterwards. */
  lemma OneMessage(m: seq<char>)
    requires IsMessage(m)
    ensures Frames([], m) == ([], [m])
  {
    var init := m[..MESSAGE_LENGTH - 1];
    MessagePrefix(m, MESSAGE_LENGTH - 1);
    FramesLast([], init, m[MESSAGE_LENGTH - 1]);
    assert init + [m[MESSAGE_LENGTH - 1]] == m;
    var st := Step(init, m[MESSAGE_LENGTH - 1]);
    assert st == ([], Some(m));
    assert [] + Listed(st.1) == [m];
  }

  /** Noise without start bytes in front of a message is dropped and the
      message comes through. */
  lemma NoiseThenMessage(noise: seq<char>, m: seq<char>)
    requires forall i :: 0 <= i < |noise| ==> !Starts(noise[i])
    requires IsMessage(m)
    ensures Frames([], noise + m) == ([], [m])
  {
    IdleDiscards(noise);
    OneMessage(m);
    FramesAppend([], noise, m);
    assert Frames([], noise).1 + Frames([], m).1 == [m];
  }

  /** Messages sent back to back are delivered one for one, in order. */
  lemma {:induction false} FramesOfMessages(ms: seq<seq<char>>)
    requires forall i :: 0 <= i < |ms| ==> IsMessage(ms[i])
    ensures Frames([], Concat(ms)) == ([], ms)
  {
    if ms != [] {
      var init := ms[..|ms| - 1];
      FramesOfMessages(init);
      OneMessage(ms[|ms| - 1]);
      FramesAppend([], Concat(init), ms[|ms| - 1]);
      assert init + [ms[|ms| - 1]] == ms;
    }
  }

  /** What the formatter is handed for each message: the buffer read as a
      C string. */
  function Texts(ms: seq<seq<char>>): (ts: seq<seq<char>>)
    ensures |ts| == |ms|
  {
    if ms == [] then [] else Texts(ms[..|ms| - 1]) + [CStr(ms[|ms| - 1])]
  }

  /** The bytes of the reads that returned one. */
  function Received(results: seq<Option<char>>): (bytes: seq<char>)
    ensures |bytes| <= |results|
  {
    if results == [] then []
    else
      var last := results[|results| - 1];
      Received(results[..|results| - 1]) + (if last.Some? then [last.value] else [])
  }

  lemma ReceivedStep(results: seq<Option<char>>, i: nat)
    requires i < |results|
    ensures Received(results[..i + 1]) == Received(results[..i]) + Listed(results[i])
  {
    assert results[..i + 1][..i] == results[..i];
  }

  /** One read of the loop, in terms of the received bytes. */
  lemma RunStep(p0: seq<char>, results: seq<Option<char>>, i: nat, pending: seq<char>, m: Option<seq<char>>)
    requires Framing(p0) && i < |results|
    requires var f := Frames(p0, Received(results[..i]));
             if results[i].None? then pending == f.0 && m.None?
             else (pending, m) == Step(f.0, results[i].value)
    ensures var f := Frames(p0, Received(results[..i]));
            Frames(p0, Received(results[..i + 1])) == (pending, f.1 + Listed(m))
  {
    ReceivedStep(results, i);
    StepBytes(p0, Received(results[..i]), results[i], pending, m);
  }

  lemma StepBytes(p0: seq<char>, bytes: seq<char>, read: Option<char>, pending: seq<char>, m: Option<seq<char>>)
    requires Framing(p0)
    requires var f := Frames(p0, bytes);
             if read.None? then pending == f.0 && m.None?
             else (pending, m) == Step(f.0, read.value)
    ensures Frames(p0, bytes + Listed(read)) == (pending, Frames(p0, bytes).1 + Listed(m))
  {
    if read.Some? {
      FramesLast(p0, bytes, read.value);
    } else {
      assert bytes + Listed(read) == bytes;
      assert Frames(p0, bytes).1 + Listed(m) == Frames(p0, bytes).1;
    }
  }

  lemma DeliveredStep(d0: seq<seq<char>>, d: seq<seq<char>>, done: seq<seq<char>>, more: seq<seq<char>>, now: seq<seq<char>>)
    requires d == d0 + Texts(done) && now == d + Texts(more)
    ensures now == d0 + Texts(done + more)
  {
    TextsAppend(done, more);
  }

  lemma {:induction false} TextsAppend(a: seq<seq<char>>, b: seq<seq<char>>)
    ensures Texts(a + b) == Texts(a) + Texts(b)
    decreases |b|
  {
    if b == [] {
      assert a + b == a;
    } else {
      assert (a + b)[..|a + b| - 1] == a + b[..|b| - 1];
      TextsAppend(a, b[..|b| - 1]);
    }
  }

  /** A terminator after the bytes does not change the C string they hold. */
  lemma CStrAppendNul(s: seq<char>)
    ensures CStr(s + [NUL]) == CStr(s)
  {
    var t := s + [NUL];
    var k := IndexOf(s, NUL);
    assert t[..k] == s[..k];
    if k < |s| {
      assert t[k] == NUL;
    } else {
      assert t[|s|] == NUL;
      assert s[..k] == s;
    }
    IndexOfUnique(t, NUL, k);
  }

  /** The receive loop's state: the 14-byte message buffer, the
      `message_started` flag and `message_length`, with what has been
      handed to the formatter and the number of acknowledgements sent. */
  class Framer {
    const buffer: array<char>
    var started: bool
    var length: nat
    var delivered: seq<seq<char>>
    var acks: nat

    /** The length stays below thirteen between bytes, is positive exactly
        while a message is under way, and every buffer write stays inside
        the buffer. */
    predicate Valid()
      reads this, buffer
    {
      && buffer.Length == MESSAGE_LENGTH + 1
      && length < MESSAGE_LENGTH
      && (started <==> length > 0)
      && (started ==> Starts(buffer[0]))
      && acks == |delivered|
    }

    function Pending(): (p: seq<char>)
      reads this, buffer
      requires Valid()
      ensures Framing(p)
    {
      buffer[..length]
    }

    constructor ()
      ensures Valid() && Pending() == [] && delivered == [] && fresh(buffer)
    {
      buffer := new char[MESSAGE_LENGTH + 1](_ => NUL);
      started := false;
      length := 0;
      delivered := [];
      acks := 0;
    }

    /** One pass of the loop: a read that returns a byte (`Some`) or fails
        (`None`). A completed message is returned as well. */
    method Receive(read: Option<char>) returns (message: Option<seq<char>>)
      requires Valid()
      modifies this, buffer
      ensures Valid()
      ensures read.None? ==> Pending() == old(Pending()) && message.None?
      ensures read.Some? ==> (Pending(), message) == Step(old(Pending()), read.value)
      ensures delivered == old(delivered) + Texts(Listed(message))
    {
      message := None;
      assert Texts(Listed(message)) == [];
      if read.None? {
        return;
      }
      var c := read.value;
      ghost var pending := buffer[..length];
      buffer[length] := c;
      if !started {
        if Starts(c) {
          started := true;
          buffer[0] := c;
          length := 1;
          assert buffer[..length] == [c];
        }
      } else {
        buffer[length] := c;
        length := length + 1;
        assert buffer[..length] == pending + [c];
        if length == MESSAGE_LENGTH {
          var m := buffer[..MESSAGE_LENGTH];
          buffer[MESSAGE_LENGTH] := NUL;
          assert buffer[..] == m + [NUL];
          CStrAppendNul(m);
          delivered := delivered + [CStr(buffer[..])];
          message := Some(m);
          assert [m][..0] == [];
          started := false;
          length := 0;
          acks := acks + 1;
        }
      }
    }

    /** The loop over a sequence of reads. */
    method Run(results: seq<Option<char>>)
      requires Valid()
      modifies this, buffer
      ensures Valid()
      ensures var f := Frames(old(Pending()), Received(results));
              Pending() == f.0 && delivered == old(delivered) + Texts(f.1)
    {
      ghost var p0 := Pending();
      ghost var d0 := delivered;
      var i := 0;
      while i < |results|
        invariant i <= |results| && Valid()
        invariant var f := Frames(p0, Received(results[..i]));
                  Pending() == f.0
        invariant delivered == d0 + Texts(Frames(p0, Received(results[..i])).1)
      {
        ghost var f := Frames(p0, Received(results[..i]));
        ghost var d := delivered;
        var m := Receive(results[i]);
        RunStep(p0, results, i, Pending(), m);
        DeliveredStep(d0, d, f.1, Listed(m), delivered);
        i := i + 1;
      }
      assert results[..i] == results;
    }
  }
}
