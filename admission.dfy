/** The socket server's admission control. A counting semaphore starts with
    MAX_CLIENTS tokens; the accept loop takes one before every `accept` and
    gives it back when the accept or the thread creation fails; a handler
    gives its token back when it finishes, except when it could not attach
    the shared segment, in which case it exits without returning it. The
    ledger counts free tokens, running handlers and tokens lost that way. */
module Admission {

  const MAX_CLIENTS: nat := 10

  datatype Ledger = Ledger(free: nat, live: nat, leaked: nat)

  /** Every token is free, held by a running handler, or lost. */
  predicate Balanced(l: Ledger) {
    l.free + l.live + l.leaked == MAX_CLIENTS
  }

  function Initial(): (l: Ledger)
    ensures Balanced(l) && l.free == MAX_CLIENTS
  {
    Ledger(MAX_CLIENTS, 0, 0)
  }

  /** How one pass of the accept loop ends. `Blocked`: no token is free, so
      `sem_wait` has not returned and nothing else happens. */
  datatype Outcome = Blocked | AcceptFailed | SpawnFailed | Spawned

  /** One pass of the accept loop: take a token, accept, start a handler;
      a failed accept or thread creation gives the token straight back. */
  function Round(l: Ledger, acceptOk: bool, spawnOk: bool): (r: (Ledger, Outcome))
  {
    if l.free == 0 then (l, Blocked)
    else if !acceptOk then (l, AcceptFailed)
    else if !spawnOk then (l, SpawnFailed)
    else (l.(free := l.free - 1, live := l.live + 1), Spawned)
  }

  /** A handler finishing. A handler that attached the segment posts its
      token; one that could not exits without posting. */
  function HandlerEnd(l: Ledger, attached: bool): (r: Ledger)
    requires l.live > 0
  {
    if attached then l.(live := l.live - 1, free := l.free + 1)
    else l.(live := l.live - 1, leaked := l.leaked + 1)
  }

  /** Every pass keeps the count: a token is taken only together with a
      handler starting, and a failed pass changes nothing. A pass blocks
      exactly when no token is free. */
  lemma RoundBalanced(l: Ledger, acceptOk: bool, spawnOk: bool)
    requires Balanced(l)
    ensures Balanced(Round(l, acceptOk, spawnOk).0)
    ensures Round(l, acceptOk, spawnOk).1 == Blocked <==> l.free == 0
    ensures Round(l, acceptOk, spawnOk).1 != Spawned ==> Round(l, acceptOk, spawnOk).0 == l
    ensures Round(l, acceptOk, spawnOk).0.leaked == l.leaked
  {
  }

  /** Finishing keeps the count; the free tokens plus running handlers stay
      at MAX_CLIENTS only when the handler attached the segment. */
  lemma EndBalanced(l: Ledger, attached: bool)
    requires Balanced(l) && l.live > 0
    ensures Balanced(HandlerEnd(l, attached))
    ensures var r := HandlerEnd(l, attached);
            r.free + r.live == l.free + l.live - (if attached then 0 else 1)
  {
  }

  /** While no handler has failed to attach, free tokens plus running
      handlers is exactly MAX_CLIENTS; one failure breaks that for good. */
  lemma AttachFailureLeaks(l: Ledger)
    requires Balanced(l) && l.leaked == 0 && l.live > 0
    ensures l.free + l.live == MAX_CLIENTS
    ensures var r := HandlerEnd(l, false); r.free + r.live == MAX_CLIENTS - 1
  {
  }

  /** `n` clients, each admitted and then failing to attach. */
  function LeakRounds(l: Ledger, n: nat): Ledger
  {
    if n == 0 then l
    else
      var b := LeakRounds(l, n - 1);
      var (after, outcome) := Round(b, true, true);
      if outcome == Spawned then HandlerEnd(after, false) else after
  }

  /** After MAX_CLIENTS such clients no token is left and every later pass
      of the accept loop blocks for ever. */
  lemma {:induction false} LeaksExhaust(n: nat)
    requires n <= MAX_CLIENTS
    ensures LeakRounds(Initial(), n) == Ledger(MAX_CLIENTS - n, 0, n)
  {
    if n > 0 {
      LeaksExhaust(n - 1);
    }
  }

  lemma ServerStarves(acceptOk: bool, spawnOk: bool)
    ensures var l := LeakRounds(Initial(), MAX_CLIENTS);
            Balanced(l) && Round(l, acceptOk, spawnOk) == (l, Blocked)
  {
    LeaksExhaust(MAX_CLIENTS);
  }

  /** One pass of the accept loop as the loop sees it: whether `accept` and
      `pthread_create` succeed, and whether the stop signal arrives while
      the pass is under way. */
  datatype Attempt = Attempt(acceptOk: bool, spawnOk: bool, signalled: bool)

  /** Passes run in order. */
  function Rounds(l: Ledger, attempts: seq<Attempt>): (r: Ledger)
  {
    if attempts == [] then l
    else
      var a := attempts[|attempts| - 1];
      Round(Rounds(l, attempts[..|attempts| - 1]), a.acceptOk, a.spawnOk).0
  }

  lemma {:induction false} RoundsBalanced(l: Ledger, attempts: seq<Attempt>)
    requires Balanced(l)
    ensures Balanced(Rounds(l, attempts))
    ensures Rounds(l, attempts).leaked == l.leaked
    ensures Rounds(l, attempts).free + Rounds(l, attempts).live == l.free + l.live
  {
    if attempts != [] {
      RoundsBalanced(l, attempts[..|attempts| - 1]);
      var a := attempts[|attempts| - 1];
      RoundBalanced(Rounds(l, attempts[..|attempts| - 1]), a.acceptOk, a.spawnOk);
    }
  }

  /** Number of passes that start: `running` is read only at the head of the
      loop, so the pass during which the signal arrives still completes and
      no later one starts. */
  function PassesRun(attempts: seq<Attempt>): (n: nat)
    ensures n <= |attempts|
    ensures forall i :: 0 <= i < n - 1 ==> !attempts[i].signalled
    ensures n < |attempts| ==> n > 0 && attempts[n - 1].signalled
  {
    if attempts == [] then 0
    else if attempts[0].signalled then 1
    else 1 + PassesRun(attempts[1..])
  }

  /** The server's accept loop and the handlers' token returns. */
  class Server {
    var free: nat
    var live: nat
    var leaked: nat
    var running: bool

    function State(): Ledger
      reads this
    {
      Ledger(free, live, leaked)
    }

    constructor ()
      ensures State() == Initial() && running
    {
      free, live, leaked := MAX_CLIENTS, 0, 0;
      running := true;
    }

    /** One pass of the accept loop. */
    method Pass(a: Attempt) returns (outcome: Outcome)
      modifies this
      ensures (State(), outcome) == Round(old(State()), a.acceptOk, a.spawnOk)
      ensures running == (old(running) && !a.signalled)
    {
      if free == 0 {
        outcome := Blocked;
      } else {
        free := free - 1;
        if !a.acceptOk {
          free := free + 1;
          outcome := AcceptFailed;
        } else if !a.spawnOk {
          free := free + 1;
          outcome := SpawnFailed;
        } else {
          live := live + 1;
          outcome := Spawned;
        }
      }
      if a.signalled {
        running := false;
      }
    }

    /** `while (running)` over the passes the environment offers. */
    method AcceptLoop(attempts: seq<Attempt>) returns (passes: nat)
      requires running
      modifies this
      ensures passes == PassesRun(attempts)
      ensures State() == Rounds(old(State()), attempts[..passes])
      ensures passes < |attempts| ==> !running
    {
      passes := 0;
      while running && passes < |attempts|
        invariant passes <= |attempts|
        invariant State() == Rounds(old(State()), attempts[..passes])
        invariant PassesRun(attempts) == passes + (if running then PassesRun(attempts[passes..]) else 0)
        decreases |attempts| - passes
      {
        PassesRunStep(attempts, passes);
        var _ := Pass(attempts[passes]);
        assert attempts[..passes + 1][..passes] == attempts[..passes];
        passes := passes + 1;
      }
      if running {
        assert attempts[passes..] == [];
      }
    }

    /** A handler thread finishing. */
    method HandlerDone(attached: bool)
      requires live > 0
      modifies this
      ensures State() == HandlerEnd(old(State()), attached)
      ensures running == old(running)
    {
      live := live - 1;
      if attached {
        free := free + 1;
      } else {
        leaked := leaked + 1;
      }
    }
  }

  lemma PassesRunStep(attempts: seq<Attempt>, k: nat)
    requires k < |attempts|
    ensures PassesRun(attempts[k..]) == 1 + (if attempts[k].signalled then 0 else PassesRun(attempts[k + 1..]))
  {
    assert attempts[k..][1..] == attempts[k + 1..];
  }
}
