/**
 The list of running events (icq/src/icq.cpp:586-636, 671-706, 737-909 and
 licq/src/event.cpp:204-222): pushed by SendExpectEvent, erased by the four
 DoneEvent variants, and failed as a whole by FailEvents.

 Each region under mutex_runningevents is one atomic step. Cancelling sending
 threads, the server send queue and what happens to a finished event are left out.
 */
module EventBook {
  import opened Sequences

  type Id = nat

  datatype Result = Acked | TimedOut | Cancelled | Error

  datatype Keys = Keys(sequence: nat, subSequence: nat, eventId: nat)

  /** pushed and done: every push and every successful DoneEvent so far. */
  datatype Book = Book(
    running: seq<Id>, sock: map<Id, int>, keys: map<Id, Keys>, pushed: seq<Id>, done: seq<Id>, result: map<Id, Result>)

  // How a caller names the event it is done with.
  datatype Selector =
    | ByEvent(e: Id)
    | BySequence(sd: int, sequence: nat)
    | ByTag(tag: nat)
    | BySubSequence(subSequence: nat)

  predicate Known(b: Book) {
    forall e | e in b.running :: e in b.sock && e in b.keys
  }

  /** CompareEvent, CompareSubSequence and Equals; the last one's argument goes
      through an unsigned short. */
  predicate Selects(b: Book, s: Selector, e: Id) {
    e in b.sock && e in b.keys &&
    match s
    case ByEvent(other) => e == other
    case BySequence(sd, sequence) => b.sock[e] == sd && b.keys[e].sequence == sequence
    case ByTag(tag) => b.keys[e].eventId == tag % 0x1_0000
    case BySubSequence(n) => b.keys[e].subSequence == n
  }

  function FirstFrom(b: Book, s: Selector, i: nat): (n: nat)
    requires i <= |b.running|
    ensures i <= n <= |b.running| && (n < |b.running| ==> Selects(b, s, b.running[n]))
    ensures forall j :: i <= j < n ==> !Selects(b, s, b.running[j])
    decreases |b.running| - i
  {
    if i == |b.running| || Selects(b, s, b.running[i]) then i else FirstFrom(b, s, i + 1)
  }

  function EraseAt(b: Book, n: nat, r: Result): Book
    requires n < |b.running|
  {
    var e := b.running[n];
    b.(running := Without(b.running, n), done := b.done + [e], result := b.result[e := r])
  }

  function Done(b: Book, s: Selector, r: Result): Book {
    var n := FirstFrom(b, s, 0);
    if n == |b.running| then b else EraseAt(b, n, r)
  }

  function Push(b: Book, e: Id, sd: int, k: Keys): Book {
    b.(running := b.running + [e], sock := b.sock[e := sd], keys := b.keys[e := k], pushed := b.pushed + [e])
  }

  // ----- the manager -----

  class EventManager {
    var running: seq<Id>
    var sock: map<Id, int>
    var keys: map<Id, Keys>
    var result: map<Id, Result>
    ghost var pushed: seq<Id>
    ghost var done: seq<Id>

    ghost function View(): Book
      reads this
    {
      Book(running, sock, keys, pushed, done, result)
    }

    constructor ()
      ensures View() == Book([], map[], map[], [], [], map[])
    {
      running, sock, keys, result := [], map[], map[], map[];
      pushed, done := [], [];
    }

    method Erase(n: nat, r: Result)
      requires n < |running|
      modifies this
      ensures View() == EraseAt(old(View()), n, r)
    {
      done := done + [running[n]];
      result := result[running[n] := r];
      running := running[..n] + running[n + 1..];
    }

    /** All variants: search, erase the first event selected, report whether there was one. */
    method DoneEvent(s: Selector, r: Result) returns (found: bool, e: Id)
      requires Known(View())
      modifies this
      ensures View() == Done(old(View()), s, r)
      ensures found == (FirstFrom(old(View()), s, 0) < |old(running)|)
      ensures found ==> e == old(running)[FirstFrom(old(View()), s, 0)]
    {
      found, e := false, 0;
      var i := 0;
      while i < |running|
        invariant 0 <= i <= |running| && View() == old(View())
        invariant FirstFrom(old(View()), s, 0) == FirstFrom(old(View()), s, i)
      {
        var c := running[i];
        var hit := match s
          case ByEvent(other) => c == other
          case BySequence(sd, sequence) => sock[c] == sd && keys[c].sequence == sequence
          case ByTag(tag) => keys[c].eventId == tag % 0x1_0000
          case BySubSequence(n) => keys[c].subSequence == n;
        if hit {
          Erase(i, r);
          return true, c;
        }
        i := i + 1;
      }
    }

    /** Push an event; when its thread cannot be started it is done at once. */
    method SendExpectEvent(e: Id, sd: int, k: Keys, threadStarts: bool) returns (ok: bool)
      requires Known(View())
      modifies this
      ensures ok == threadStarts && Known(View())
      ensures View() == var b := Push(old(View()), e, sd, k); if ok then b else Done(b, ByEvent(e), Error)
    {
      running, sock, keys := running + [e], sock[e := sd], keys[e := k];
      pushed := pushed + [e];
      ok := threadStarts;
      if !threadStarts {
        var found, gone := DoneEvent(ByEvent(e), Error);
      }
    }

    method FindOn(sd: int) returns (i: nat)
      requires Known(View())
      ensures i == FirstOn(running, sock, sd)
    {
      i := 0;
      while i < |running| && sock[running[i]] != sd
        invariant i <= |running| && forall j :: 0 <= j < i ==> sock[running[j]] != sd
      {
        i := i + 1;
      }
    }

    method FailRound(i: nat, sd: int, reset: bool, threadStarts: Id -> bool)
      requires Known(View()) && NoDuplicates(running) && i == FirstOn(running, sock, sd) < |running|
      modifies this
      ensures View() == FailOne(old(View()), sd, reset, threadStarts)
    {
      hide FirstOn, On, Off;
      OnlyOneSelected(View(), i);
      var e := running[i];
      var found, gone := DoneEvent(ByEvent(e), Error);
      if reset {
        var ok := SendExpectEvent(e, -1, keys[e], threadStarts(e));
      }
    }

    /** Fail everything on a socket; after ECONNRESET each event is sent again, without a socket. */
    method FailEvents(sd: int, reset: bool, threadStarts: Id -> bool)
      requires Known(View()) && NoDuplicates(running) && Ends(View(), sd, reset, threadStarts)
      modifies this
      ensures View() == Failed(old(View()), sd, reset, threadStarts)
      ensures Known(View()) && NoDuplicates(running)
    {
      hide Known, NoDuplicates, Ends, FailOne, On, Off, FirstOn;
      while true
        invariant Known(View()) && NoDuplicates(running) && Ends(View(), sd, reset, threadStarts)
        invariant Failed(View(), sd, reset, threadStarts) == Failed(old(View()), sd, reset, threadStarts)
        decreases |On(running, sock, sd)|
      {
        ghost var before := View();
        var i := FindOn(sd);
        if i == |running| {
          return;
        }
        FailOneShrinks(before, sd, reset, threadStarts);
        FailRound(i, sd, reset, threadStarts);
      }
    }
  }

  function On(es: seq<Id>, sock: map<Id, int>, sd: int): seq<Id> {
    if es == [] then [] else (if es[0] in sock && sock[es[0]] == sd then [es[0]] else []) + On(es[1..], sock, sd)
  }

  function Off(es: seq<Id>, sock: map<Id, int>, sd: int): seq<Id> {
    if es == [] then [] else (if es[0] in sock && sock[es[0]] == sd then [] else [es[0]]) + Off(es[1..], sock, sd)
  }

  function Started(es: seq<Id>, starts: Id -> bool): seq<Id> {
    if es == [] then [] else (if starts(es[0]) then [es[0]] else []) + Started(es[1..], starts)
  }

  // ----- FailEvents as a function -----

  function FirstOn(es: seq<Id>, sock: map<Id, int>, sd: int): (n: nat)
    ensures n <= |es| && (n < |es| ==> es[n] in sock && sock[es[n]] == sd)
    ensures forall j :: 0 <= j < n ==> !(es[j] in sock && sock[es[j]] == sd)
  {
    if es == [] || (es[0] in sock && sock[es[0]] == sd) then 0 else 1 + FirstOn(es[1..], sock, sd)
  }

  /** When FailEvents ends: sending again must not put an event back on the socket
      that is being failed, as it does on -1 when its thread starts. */
  predicate Ends(b: Book, sd: int, reset: bool, starts: Id -> bool) {
    sd == -1 && reset ==> forall e | e in b.running && e in b.sock && b.sock[e] == -1 :: !starts(e)
  }

  // One round: the first event on the socket is done, and perhaps sent again.
  function FailOne(b: Book, sd: int, reset: bool, starts: Id -> bool): (c: Book)
    requires Known(b) && FirstOn(b.running, b.sock, sd) < |b.running|
  {
    var n := FirstOn(b.running, b.sock, sd);
    var e := b.running[n];
    var gone := EraseAt(b, n, Error);
    if !reset then gone
    else
      var again := Push(gone, e, -1, b.keys[e]);
      if starts(e) then again else Done(again, ByEvent(e), Error)
  }

  ghost function Failed(b: Book, sd: int, reset: bool, starts: Id -> bool): (c: Book)
    requires Known(b) && NoDuplicates(b.running) && Ends(b, sd, reset, starts)
    decreases |On(b.running, b.sock, sd)|
  {
    if FirstOn(b.running, b.sock, sd) == |b.running| then b
    else
      FailOneShrinks(b, sd, reset, starts);
      Failed(FailOne(b, sd, reset, starts), sd, reset, starts)
  }

  lemma {:induction false} OnOffConcat(x: seq<Id>, y: seq<Id>, sock: map<Id, int>, sd: int)
    ensures On(x + y, sock, sd) == On(x, sock, sd) + On(y, sock, sd)
    ensures Off(x + y, sock, sd) == Off(x, sock, sd) + Off(y, sock, sd)
  {
    if x == [] {
      assert x + y == y;
    } else {
      DropInLeft(x, y, 1);
      OnOffConcat(x[1..], y, sock, sd);
      var c := x[0] in sock && sock[x[0]] == sd;
      Assoc(if c then [x[0]] else [], On(x[1..], sock, sd), On(y, sock, sd));
      Assoc(if c then [] else [x[0]], Off(x[1..], sock, sd), Off(y, sock, sd));
    }
  }

  lemma {:induction false} NoneOn(es: seq<Id>, sock: map<Id, int>, sd: int)
    requires forall j :: 0 <= j < |es| ==> !(es[j] in sock && sock[es[j]] == sd)
    ensures On(es, sock, sd) == [] && Off(es, sock, sd) == es
  {
    if es != [] {
      NoneOn(es[1..], sock, sd);
      assert es == [es[0]] + es[1..];
    }
  }

  lemma {:induction false} OtherSockets(es: seq<Id>, sock: map<Id, int>, sd: int, e: Id, to: int)
    requires e !in es
    ensures On(es, sock[e := to], sd) == On(es, sock, sd) && Off(es, sock[e := to], sd) == Off(es, sock, sd)
  {
    if es != [] {
      OtherSockets(es[1..], sock, sd, e, to);
    }
  }

  // What erasing the first event on a socket leaves.
  lemma EraseFirst(es: seq<Id>, sock: map<Id, int>, sd: int)
    requires FirstOn(es, sock, sd) < |es|
    ensures var n := FirstOn(es, sock, sd);
      && On(es, sock, sd) == [es[n]] + On(Without(es, n), sock, sd)
      && Off(es, sock, sd) == Off(Without(es, n), sock, sd)
  {
    var n := FirstOn(es, sock, sd);
    var front, back := es[..n], es[n + 1..];
    NoneOn(front, sock, sd);
    OnOffConcat(front, [es[n]] + back, sock, sd);
    OnOffConcat(front, back, sock, sd);
    OnOffOfHead(es[n], back, sock, sd);
    hide On, Off, FirstOn;
    SplitOut(es, n);
    assert [] + On(back, sock, sd) == On(back, sock, sd);
    assert [] + ([es[n]] + On(back, sock, sd)) == [es[n]] + On(back, sock, sd);
  }

  lemma OnOffOfHead(e: Id, back: seq<Id>, sock: map<Id, int>, sd: int)
    requires e in sock && sock[e] == sd
    ensures On([e] + back, sock, sd) == [e] + On(back, sock, sd) && Off([e] + back, sock, sd) == Off(back, sock, sd)
  {
    assert ([e] + back)[1..] == back;
  }

  lemma OneOff(e: Id, sock: map<Id, int>, sd: int)
    requires e in sock && sock[e] != sd
    ensures On([e], sock, sd) == [] && Off([e], sock, sd) == [e]
  {
    assert [e][1..] == [];
  }

  lemma OnlyOneSelected(b: Book, n: nat)
    requires Known(b) && NoDuplicates(b.running) && n < |b.running|
    ensures FirstFrom(b, ByEvent(b.running[n]), 0) == n
  {}

  // The list after one round, whether the thread of the event starts or not.
  lemma RoundShape(b: Book, sd: int, reset: bool, starts: Id -> bool)
    requires Known(b) && NoDuplicates(b.running) && FirstOn(b.running, b.sock, sd) < |b.running|
    ensures var n, c := FirstOn(b.running, b.sock, sd), FailOne(b, sd, reset, starts);
      var e := b.running[n];
      && Known(c) && NoDuplicates(c.running) && e !in Without(b.running, n)
      && c.running == Without(b.running, n) + (if reset && starts(e) then [e] else [])
      && c.sock == (if reset then b.sock[e := -1] else b.sock)
  {
    hide FirstOn;
    var n := FirstOn(b.running, b.sock, sd);
    var e := b.running[n];
    var rest := Without(b.running, n);
    WithoutIsDistinct(b.running, n);
    if reset {
      var again := Push(EraseAt(b, n, Error), e, -1, b.keys[e]);
      assert again.running[|rest|] == e;
      OnlyOneSelected(again, |rest|);
      assert Without(again.running, |rest|) == rest;
    }
    assert rest + [] == rest;
  }

  /** One round takes the first event off the socket, puts it behind all others if
      it is sent again, and touches nothing else. */
  lemma FailOneShrinks(b: Book, sd: int, reset: bool, starts: Id -> bool)
    requires Known(b) && NoDuplicates(b.running) && Ends(b, sd, reset, starts)
    requires FirstOn(b.running, b.sock, sd) < |b.running|
    ensures var n, c := FirstOn(b.running, b.sock, sd), FailOne(b, sd, reset, starts);
      var e := b.running[n];
      && Known(c) && NoDuplicates(c.running) && Ends(c, sd, reset, starts)
      && c.running == Without(b.running, n) + (if reset && starts(e) then [e] else [])
      && c.sock == (if reset then b.sock[e := -1] else b.sock)
      && On(b.running, b.sock, sd) == [e] + On(c.running, c.sock, sd)
      && Off(c.running, c.sock, sd) == Off(b.running, b.sock, sd) + (if reset && starts(e) then [e] else [])
  {
    var n := FirstOn(b.running, b.sock, sd);
    var e := b.running[n];
    var rest := Without(b.running, n);
    RoundShape(b, sd, reset, starts);
    hide FailOne, On, Off, NoDuplicates;
    EraseFirst(b.running, b.sock, sd);
    OtherSockets(rest, b.sock, sd, e, -1);
    var c := FailOne(b, sd, reset, starts);
    assert rest + [] == rest && Off(rest, b.sock, sd) + [] == Off(rest, b.sock, sd);
    if reset && starts(e) {
      OnOffConcat(rest, [e], c.sock, sd);
      OneOff(e, c.sock, sd);
      assert On(rest, c.sock, sd) + [] == On(rest, c.sock, sd);
    }
  }

  lemma {:induction false} StartedConcat(x: Id, es: seq<Id>, starts: Id -> bool)
    ensures Started([x] + es, starts) == (if starts(x) then [x] else []) + Started(es, starts)
  {
    assert ([x] + es)[1..] == es;
  }

  /** FailEvents ends, leaves nothing on the failed socket, keeps the other events
      in order, and behind them, in order and without a socket, those sent again. */
  lemma {:induction false} FailedLeavesNoneOn(b: Book, sd: int, reset: bool, starts: Id -> bool)
    requires Known(b) && NoDuplicates(b.running) && Ends(b, sd, reset, starts)
    ensures var c := Failed(b, sd, reset, starts);
      && Known(c) && NoDuplicates(c.running)
      && c.running == Off(b.running, b.sock, sd) + (if reset then Started(On(b.running, b.sock, sd), starts) else [])
      && c.sock.Keys == b.sock.Keys
      && (forall e | e in c.running :: c.sock[e] != sd)
      && (forall e | e in c.running :: c.sock[e] == b.sock[e] || (reset && b.sock[e] == sd && c.sock[e] == -1))
    decreases |On(b.running, b.sock, sd)|
  {
    hide On, Off, Started;
    if FirstOn(b.running, b.sock, sd) == |b.running| {
      NoneOn(b.running, b.sock, sd);
      NoneStarted(starts);
      assert b.running + [] == b.running;
    } else {
      FailOneShrinks(b, sd, reset, starts);
      var d := FailOne(b, sd, reset, starts);
      FailedLeavesNoneOn(d, sd, reset, starts);
      var e := b.running[FirstOn(b.running, b.sock, sd)];
      StartedConcat(e, On(d.running, d.sock, sd), starts);
      Assoc(Off(b.running, b.sock, sd), if reset && starts(e) then [e] else [],
        if reset then Started(On(d.running, d.sock, sd), starts) else []);
    }
  }

  lemma NoneStarted(starts: Id -> bool)
    ensures Started([], starts) == []
  {}

  /** Otherwise it goes round for ever: a round leads from a list it does not end on
      to another, of which there is again something to fail. */
  lemma OtherwiseItGoesOn(b: Book, sd: int, reset: bool, starts: Id -> bool)
    requires Known(b) && NoDuplicates(b.running) && !Ends(b, sd, reset, starts)
    ensures FirstOn(b.running, b.sock, sd) < |b.running|
    ensures var c := FailOne(b, sd, reset, starts);
      Known(c) && NoDuplicates(c.running) && !Ends(c, sd, reset, starts)
  {
    hide FailOne, FirstOn, NoDuplicates;
    var k :| 0 <= k < |b.running| && b.sock[b.running[k]] == -1 && starts(b.running[k]);
    var n := FirstOn(b.running, b.sock, sd);
    assert n <= k;
    RoundShape(b, sd, reset, starts);
    var c := FailOne(b, sd, reset, starts);
    if k == n {
      assert c.running[|c.running| - 1] == b.running[k];
    } else {
      assert c.running[k - 1] == b.running[k];
    }
  }

  ghost predicate DistinctTags(b: Book) {
    forall e, f | e in b.running && f in b.running && e in b.keys && f in b.keys && e != f ::
      b.keys[e].eventId != b.keys[f].eventId
  }

  /** Cancelling an event by its own id reaches that event exactly while ids fit
      sixteen bits: the comparison cuts the id it is given. */
  lemma OwnTagIffShort(b: Book, e: Id)
    requires Known(b) && DistinctTags(b) && e in b.running
    ensures var tag := b.keys[e].eventId;
      var n := FirstFrom(b, ByTag(tag), 0);
      tag < 0x1_0000 <==> n < |b.running| && b.running[n] == e
  {
    var tag := b.keys[e].eventId;
    var n := FirstFrom(b, ByTag(tag), 0);
    var k :| 0 <= k < |b.running| && b.running[k] == e;
    if tag < 0x1_0000 {
      assert tag % 0x1_0000 == tag;
      assert Selects(b, ByTag(tag), b.running[k]);
    }
  }
}
