/**
 FailEvents racing with everybody else who pushes and finishes events
 (icq/src/icq.cpp:586-636, 671-706, 737-909).

 FailEvents releases mutex_runningevents between finding an event and finishing it,
 and again before it sends the event anew, so other threads get in between. Here it
 is a process with a program counter; each of its steps, and each push, DoneEvent
 and socket assignment of another thread, is one atomic step of a run.
 */
module EventRace {
  import opened Sequences
  import opened EventBook

  // Hold: found, lock released. Resend: finished, about to be sent again.
  // Undo: pushed again, but its thread did not start. Over: the loop has ended.
  datatype Pc = Scan | Hold(e: Id) | Resend(e: Id) | Undo(e: Id) | Over

  /** rounds: events the loop found; moves: steps it made; back: events it sent again
      on the very socket it is failing; arrivals: events that came to that socket from
      outside, late of them after the loop ended. */
  datatype Race = Race(book: Book, pc: Pc, rounds: nat, moves: nat, back: nat, arrivals: nat, late: nat)

  datatype Action =
    | Send(e: Id, sd: int, k: Keys)
    | Finish(s: Selector, r: Result)
    | Attach(e: Id, to: int)           // the event's own thread connects
    | FailMove(threadStarts: bool)

  predicate Allowed(x: Race, a: Action) {
    match a
    case Send(e, _, _) => e !in x.book.running && x.pc != Resend(e)
    case Finish(_, _) => true
    case Attach(e, _) => e in x.book.running
    case FailMove(_) => x.pc != Over
  }

  function Arrive(x: Race, b: Book, here: bool): Race {
    x.(book := b,
       arrivals := x.arrivals + if here then 1 else 0,
       late := x.late + if here && x.pc == Over then 1 else 0)
  }

  function Move(x: Race, sd: int, reset: bool, threadStarts: bool): Race
    requires Known(x.book) && (x.pc.Resend? ==> x.pc.e in x.book.keys)
  {
    var b := x.book;
    match x.pc
    case Scan =>
      var n := FirstOn(b.running, b.sock, sd);
      if n == |b.running| then x.(pc := Over) else x.(pc := Hold(b.running[n]), rounds := x.rounds + 1)
    case Hold(e) =>
      x.(book := Done(b, ByEvent(e), Error), pc := if reset && e in b.running then Resend(e) else Scan)
    case Resend(e) =>
      x.(book := Push(b, e, -1, b.keys[e]), pc := if threadStarts then Scan else Undo(e),
         back := x.back + if sd == -1 && threadStarts then 1 else 0)
    case Undo(e) =>
      x.(book := Done(b, ByEvent(e), Error), pc := Scan)
    case Over => x
  }

  function Step(x: Race, a: Action, sd: int, reset: bool): Race
    requires Known(x.book) && (x.pc.Resend? ==> x.pc.e in x.book.keys)
  {
    match a
    case Send(e, to, k) => Arrive(x, Push(x.book, e, to, k), to == sd)
    case Finish(s, r) => x.(book := Done(x.book, s, r))
    case Attach(e, to) => Arrive(x, x.book.(sock := x.book.sock[e := to]), to == sd)
    case FailMove(starts) => Move(x, sd, reset, starts).(moves := x.moves + 1)
  }

  // ----- conservation -----

  /** Every push is matched by one successful DoneEvent or one place in the list. */
  ghost predicate Balanced(b: Book) {
    multiset(b.pushed) == multiset(b.done) + multiset(b.running)
  }

  ghost predicate Sound(b: Book) {
    Known(b) && NoDuplicates(b.running) && Balanced(b)
  }

  lemma EraseIsSound(b: Book, n: nat, r: Result)
    requires Sound(b) && n < |b.running|
    ensures Sound(EraseAt(b, n, r)) && b.running[n] !in EraseAt(b, n, r).running
  {
    WithoutIsDistinct(b.running, n);
    WithoutIsLess(b.running, n);
    hide NoDuplicates;
  }

  lemma WithoutIsLess(es: seq<Id>, n: nat)
    requires n < |es|
    ensures multiset(es) == multiset(Without(es, n)) + multiset{es[n]}
  {
    SplitOut(es, n);
  }

  lemma PushIsSound(b: Book, e: Id, sd: int, k: Keys)
    requires Sound(b) && e !in b.running
    ensures Sound(Push(b, e, sd, k))
  {}

  lemma DoneIsSound(b: Book, s: Selector, r: Result)
    requires Sound(b)
    ensures Sound(Done(b, s, r))
    ensures forall e | e in Done(b, s, r).running :: e in b.running
  {
    hide NoDuplicates, Balanced, FirstFrom;
    var n := FirstFrom(b, s, 0);
    if n < |b.running| {
      EraseIsSound(b, n, r);
      SplitOut(b.running, n);
    }
  }

  /** A finished event is not finished again unless it is pushed again. */
  lemma OnceOnly(b: Book, e: Id)
    requires Sound(b)
    ensures multiset(b.done)[e] == multiset(b.pushed)[e] - if e in b.running then 1 else 0
  {
    DistinctCountsOne(b.running, e);
  }

  // ----- how many events a socket has -----

  function Live(b: Book, sd: int): nat {
    |On(b.running, b.sock, sd)|
  }

  function One(c: bool): nat {
    if c then 1 else 0
  }

  lemma LiveOfPush(b: Book, e: Id, to: int, k: Keys, sd: int)
    requires Known(b) && e !in b.running
    ensures Live(Push(b, e, to, k), sd) == Live(b, sd) + One(to == sd)
  {
    OtherSockets(b.running, b.sock, sd, e, to);
    OnOffConcat(b.running, [e], b.sock[e := to], sd);
    assert [e][1..] == [];
  }

  lemma LiveOfErase(b: Book, n: nat, r: Result, sd: int)
    requires Known(b) && n < |b.running|
    ensures Live(EraseAt(b, n, r), sd) == Live(b, sd) - One(b.sock[b.running[n]] == sd)
  {
    var es := b.running;
    SplitOut(es, n);
    OnOffConcat(es[..n], [es[n]] + es[n + 1..], b.sock, sd);
    OnOffConcat([es[n]], es[n + 1..], b.sock, sd);
    OnOffConcat(es[..n], es[n + 1..], b.sock, sd);
    assert [es[n]][1..] == [];
  }

  lemma LiveOfAttach(b: Book, e: Id, to: int, sd: int)
    requires Known(b) && NoDuplicates(b.running) && e in b.running
    ensures Live(b.(sock := b.sock[e := to]), sd) == Live(b, sd) - One(b.sock[e] == sd) + One(to == sd)
  {
    var es := b.running;
    var n :| 0 <= n < |es| && es[n] == e;
    assert e !in es[..n] && e !in es[n + 1..];
    hide On, NoDuplicates, Known;
    SplitOut(es, n);
    OtherSockets(es[..n], b.sock, sd, e, to);
    OtherSockets(es[n + 1..], b.sock, sd, e, to);
    LiveOfThree(es[..n], e, es[n + 1..], b.sock, sd);
    LiveOfThree(es[..n], e, es[n + 1..], b.sock[e := to], sd);
  }

  lemma LiveOfThree(x: seq<Id>, e: Id, y: seq<Id>, sock: map<Id, int>, sd: int)
    requires e in sock
    ensures |On(x + ([e] + y), sock, sd)| == |On(x, sock, sd)| + One(sock[e] == sd) + |On(y, sock, sd)|
  {
    OnOffConcat(x, [e] + y, sock, sd);
    OnOffConcat([e], y, sock, sd);
    assert [e][1..] == [];
  }

  // ----- the invariant of every run -----

  function Left(p: Pc): nat {
    match p case Hold(_) => 3 case Resend(_) => 2 case Undo(_) => 1 case _ => 0
  }

  // The event FailEvents is about to finish is on the failed socket.
  predicate Holding(x: Race, sd: int) {
    (x.pc.Hold? || x.pc.Undo?) && x.pc.e in x.book.running && x.pc.e in x.book.sock && x.book.sock[x.pc.e] == sd
  }

  /** The book is sound, and an event between its DoneEvent and its second push is
      known to FailEvents alone. */
  ghost predicate Ready(x: Race) {
    && Sound(x.book)
    && (x.pc.Hold? || x.pc.Resend? ==> x.pc.e in x.book.keys)
    && (x.pc.Resend? ==> x.pc.e !in x.book.running)
  }

  /** start: the events on the socket when the loop began. Each round is paid for by
      one of them, by an arrival or by an event put back, and takes at most four moves. */
  ghost predicate Inv(x: Race, sd: int, reset: bool, start: nat) {
    && Ready(x)
    && (x.pc.Resend? || x.back > 0 ==> reset) && (x.back > 0 ==> sd == -1)
    && x.rounds + Live(x.book, sd) <= start + x.arrivals + x.back + One(Holding(x, sd))
    && x.moves + Left(x.pc) <= 4 * x.rounds + One(x.pc == Over)
    && (x.pc == Over ==> Live(x.book, sd) <= x.late)
  }

  lemma SendKeepsInv(x: Race, a: Action, sd: int, reset: bool, start: nat)
    requires Inv(x, sd, reset, start) && a.Send? && Allowed(x, a)
    ensures Inv(Step(x, a, sd, reset), sd, reset, start)
  {
    hide On, FirstOn;
    PushIsSound(x.book, a.e, a.sd, a.k);
    LiveOfPush(x.book, a.e, a.sd, a.k, sd);
    hide NoDuplicates, Balanced, Live;
  }

  lemma AttachKeepsInv(x: Race, a: Action, sd: int, reset: bool, start: nat)
    requires Inv(x, sd, reset, start) && a.Attach? && Allowed(x, a)
    ensures Inv(Step(x, a, sd, reset), sd, reset, start)
  {
    hide On, FirstOn;
    LiveOfAttach(x.book, a.e, a.to, sd);
    hide NoDuplicates, Live;
  }

  // What a DoneEvent by whomever does to the count.
  lemma DoneAndLive(b: Book, s: Selector, r: Result, sd: int)
    requires Sound(b)
    ensures var n, c := FirstFrom(b, s, 0), Done(b, s, r);
      && Sound(c) && c.sock == b.sock && c.keys == b.keys
      && Live(c, sd) == Live(b, sd) - One(n < |b.running| && b.sock[b.running[n]] == sd)
      && (forall e :: e in c.running <==> e in b.running && !(n < |b.running| && e == b.running[n]))
  {
    var n := FirstFrom(b, s, 0);
    DoneIsSound(b, s, r);
    if n < |b.running| {
      LiveOfErase(b, n, r, sd);
      EraseIsSound(b, n, r);
      SplitOut(b.running, n);
    }
  }

  lemma FinishKeepsInv(x: Race, a: Action, sd: int, reset: bool, start: nat)
    requires Inv(x, sd, reset, start) && a.Finish?
    ensures Inv(Step(x, a, sd, reset), sd, reset, start)
  {
    hide FirstFrom, NoDuplicates, Balanced, On, Live, Done;
    DoneAndLive(x.book, a.s, a.r, sd);
  }

  // DoneEvent by the event itself finds it exactly when it is running.
  lemma FoundIffRunning(b: Book, e: Id)
    requires Sound(b)
    ensures var n := FirstFrom(b, ByEvent(e), 0);
      if e in b.running then n < |b.running| && b.running[n] == e else n == |b.running|
  {
    if e in b.running {
      var n :| 0 <= n < |b.running| && b.running[n] == e;
      OnlyOneSelected(b, n);
    }
  }

  lemma MoveKeepsInv(x: Race, threadStarts: bool, sd: int, reset: bool, start: nat)
    requires Inv(x, sd, reset, start) && x.pc != Over
    ensures Inv(Step(x, FailMove(threadStarts), sd, reset), sd, reset, start)
  {
    hide FirstFrom, NoDuplicates, Balanced, On, Live, Done, FirstOn;
    var b := x.book;
    match x.pc
    case Scan =>
      if FirstOn(b.running, b.sock, sd) == |b.running| {
        NoneIsLive(b, sd);
      }
    case Hold(e) =>
      FoundIffRunning(b, e);
      DoneAndLive(b, ByEvent(e), Error, sd);
    case Resend(e) =>
      PushIsSound(b, e, -1, b.keys[e]);
      LiveOfPush(b, e, -1, b.keys[e], sd);
    case Undo(e) =>
      FoundIffRunning(b, e);
      DoneAndLive(b, ByEvent(e), Error, sd);
  }

  lemma StepKeepsReady(x: Race, a: Action, sd: int, reset: bool)
    requires Ready(x) && Allowed(x, a)
    ensures Ready(Step(x, a, sd, reset))
  {
    hide FirstFrom, NoDuplicates, Balanced, On, Live, Done, FirstOn;
    var b := x.book;
    match a
    case Send(e, to, k) => PushIsSound(b, e, to, k);
    case Finish(s, r) => DoneAndLive(b, s, r, sd);
    case Attach(e, to) => AttachIsSound(b, e, to);
    case FailMove(starts) =>
      match x.pc
      case Scan =>
      case Hold(e) =>
        FoundIffRunning(b, e);
        DoneAndLive(b, ByEvent(e), Error, sd);
      case Resend(e) => PushIsSound(b, e, -1, b.keys[e]);
      case Undo(e) => DoneAndLive(b, ByEvent(e), Error, sd);
  }

  lemma AttachIsSound(b: Book, e: Id, to: int)
    requires Sound(b)
    ensures Sound(b.(sock := b.sock[e := to]))
  {}

  lemma NoneIsLive(b: Book, sd: int)
    requires FirstOn(b.running, b.sock, sd) == |b.running|
    ensures Live(b, sd) == 0
  {
    NoneOn(b.running, b.sock, sd);
  }

  lemma StepKeepsInv(x: Race, a: Action, sd: int, reset: bool, start: nat)
    requires Inv(x, sd, reset, start) && Allowed(x, a)
    ensures Inv(Step(x, a, sd, reset), sd, reset, start)
  {
    match a
    case Send(_, _, _) => SendKeepsInv(x, a, sd, reset, start);
    case Finish(_, _) => FinishKeepsInv(x, a, sd, reset, start);
    case Attach(_, _) => AttachKeepsInv(x, a, sd, reset, start);
    case FailMove(starts) => MoveKeepsInv(x, starts, sd, reset, start);
  }

  // ----- runs -----

  predicate Possible(x: Race, a: Action) {
    Known(x.book) && (x.pc.Resend? ==> x.pc.e in x.book.keys) && Allowed(x, a)
  }

  // FailEvents begins on a book; actions that are not possible when they are due are skipped.
  function RunAll(b: Book, actions: seq<Action>, sd: int, reset: bool): (x: Race) {
    if actions == [] then Race(b, Scan, 0, 0, 0, 0, 0)
    else
      var x := RunAll(b, actions[..|actions| - 1], sd, reset);
      if Possible(x, actions[|actions| - 1]) then Step(x, actions[|actions| - 1], sd, reset) else x
  }

  lemma {:induction false} RunKeepsInv(b: Book, actions: seq<Action>, sd: int, reset: bool)
    requires Sound(b)
    ensures Inv(RunAll(b, actions, sd, reset), sd, reset, Live(b, sd))
    decreases |actions|
  {
    hide Step, Live, Sound;
    if actions != [] {
      RunKeepsInv(b, actions[..|actions| - 1], sd, reset);
      var x := RunAll(b, actions[..|actions| - 1], sd, reset);
      if Possible(x, actions[|actions| - 1]) {
        StepKeepsInv(x, actions[|actions| - 1], sd, reset, Live(b, sd));
      }
    }
  }

  /** However sends, acks, timeouts, cancels and connections fall between its steps:
      FailEvents makes at most four moves for each event that was on its socket at
      the start, came there since, or was sent again on it, which happens only on
      descriptor -1 after a reset. So it ends once no more come; and when it has
      ended, only events that came afterwards are there. */
  lemma FailEventsEnds(b: Book, actions: seq<Action>, sd: int, reset: bool)
    requires Sound(b)
    ensures var x := RunAll(b, actions, sd, reset);
      && x.rounds <= Live(b, sd) + x.arrivals + x.back
      && x.moves <= 4 * (Live(b, sd) + x.arrivals + x.back) + 1
      && (x.back > 0 ==> sd == -1 && reset)
      && (x.pc == Over ==> Live(x.book, sd) <= x.late)
  {
    RunKeepsInv(b, actions, sd, reset);
    HoldingIsLive(RunAll(b, actions, sd, reset), sd);
  }

  lemma HoldingIsLive(x: Race, sd: int)
    requires Known(x.book) && NoDuplicates(x.book.running)
    ensures One(Holding(x, sd)) <= Live(x.book, sd)
  {
    if Holding(x, sd) {
      LiveOfAttach(x.book, x.pc.e, sd + 1, sd);
    }
  }

  lemma {:induction false} RunIsReady(b: Book, actions: seq<Action>, sd: int, reset: bool)
    requires Sound(b)
    ensures Ready(RunAll(b, actions, sd, reset))
    decreases |actions|
  {
    hide Step, Sound;
    if actions != [] {
      RunIsReady(b, actions[..|actions| - 1], sd, reset);
      var x := RunAll(b, actions[..|actions| - 1], sd, reset);
      if Possible(x, actions[|actions| - 1]) {
        StepKeepsReady(x, actions[|actions| - 1], sd, reset);
      }
    }
  }

  /** Of any number of threads that race to finish one event, exactly one succeeds:
      whatever selectors they use, and whether FailEvents ends or not, the pushes of
      an event exceed its successful DoneEvents by one while it runs and equal them
      otherwise. */
  lemma ExactlyOnce(b: Book, actions: seq<Action>, sd: int, reset: bool, e: Id)
    requires Sound(b)
    ensures var c := RunAll(b, actions, sd, reset).book;
      multiset(c.pushed)[e] == multiset(c.done)[e] + if e in c.running then 1 else 0
  {
    RunIsReady(b, actions, sd, reset);
    OnceOnly(RunAll(b, actions, sd, reset).book, e);
  }

  // ----- the counters, from the actions alone -----

  function MovesIn(b: Book, actions: seq<Action>, sd: int, reset: bool): (n: nat) {
    if actions == [] then 0
    else
      var before, a := actions[..|actions| - 1], actions[|actions| - 1];
      MovesIn(b, before, sd, reset) + One(a.FailMove? && Possible(RunAll(b, before, sd, reset), a))
  }

  /** Events pushed or connected to the socket; only those after FailEvents had ended, if late. */
  function ArrivalsIn(b: Book, actions: seq<Action>, sd: int, reset: bool, late: bool): (n: nat) {
    if actions == [] then 0
    else
      var before, a := actions[..|actions| - 1], actions[|actions| - 1];
      var x := RunAll(b, before, sd, reset);
      ArrivalsIn(b, before, sd, reset, late)
        + One(Possible(x, a) && ((a.Send? && a.sd == sd) || (a.Attach? && a.to == sd)) && (late ==> x.pc == Over))
  }

  /** The counters of FailEventsEnds are those of the run's actions. */
  lemma {:induction false} CountersAreCounts(b: Book, actions: seq<Action>, sd: int, reset: bool)
    ensures var x := RunAll(b, actions, sd, reset);
      && x.moves == MovesIn(b, actions, sd, reset)
      && x.arrivals == ArrivalsIn(b, actions, sd, reset, false)
      && x.late == ArrivalsIn(b, actions, sd, reset, true)
    decreases |actions|
  {
    if actions != [] {
      var before, a := actions[..|actions| - 1], actions[|actions| - 1];
      CountersAreCounts(b, before, sd, reset);
      var x := RunAll(b, before, sd, reset);
      if Possible(x, a) {
        hide Done, Push, Known, FirstOn, Allowed, RunAll;
        StepCounts(x, a, sd, reset);
      }
    }
  }

  lemma StepCounts(x: Race, a: Action, sd: int, reset: bool)
    requires Possible(x, a)
    ensures var y := Step(x, a, sd, reset);
      var here := (a.Send? && a.sd == sd) || (a.Attach? && a.to == sd);
      && y.moves == x.moves + One(a.FailMove?) && y.arrivals == x.arrivals + One(here)
      && y.late == x.late + One(here && x.pc == Over)
  {
    hide Done, Push, FirstOn;
  }
}
