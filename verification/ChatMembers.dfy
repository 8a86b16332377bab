/**
 Every user belongs to one list, over any run of joins, closes, raw broadcasts, kick
 verdicts and the end of the chat (icq/src/chat.cpp:854, 912, 1971-1995, 2223-2319, 2432).
 */
module ChatMembers {
  import opened Sequences
  import opened ChatRoom
  import opened ChatBroadcast

  /** joined: every user there ever was; strays: users closed when they were closed already. */
  datatype History = History(room: Room, joined: seq<User>, strays: seq<User>)

  datatype Action =
    | Join(u: User, socket: int, number: nat)
    | Handshaken(u: User)
    | LoseSocket(u: User)
    | Close(u: User)
    | SendRaw(works: nat -> bool)
    | Verdict(number: nat, passed: bool)
    | EndChat

  predicate Allowed(x: History, a: Action) {
    match a
    case Join(u, _, _) => u !in x.joined
    case Handshaken(u) => u in x.room.users
    case LoseSocket(u) => u in x.room.users
    case Close(u) => u in x.joined
    case _ => true
  }

  function Step(x: History, a: Action): (y: History) {
    var r := x.room;
    match a
    case Join(u, socket, number) =>
      x.(joined := x.joined + [u], room := r.(
        users := r.users + [u], state := r.state[u := Handshake], socket := r.socket[u := socket], uin := r.uin[u := number]))
    case Handshaken(u) => x.(room := r.(state := r.state[u := Connected]))
    case LoseSocket(u) => x.(room := r.(socket := r.socket[u := -1]))
    case Close(u) => x.(room := Closed(r, u), strays := x.strays + if u in r.users then [] else [u])
    case SendRaw(works) => x.(room := Broadcast(r, 0, works))
    case Verdict(number, passed) => x.(room := Kicked(r, number, passed))
    case EndChat => x.(room := AllClosed(r))
  }

  /** Nobody is listed twice, in one list or in both; the listed are those who joined;
      who is closed is disconnected, who is not is not. */
  ghost predicate InOneList(x: History) {
    var r := x.room;
    && Known(r) && NoDuplicates(r.users) && NoDuplicates(r.closed)
    && (forall u :: u in x.joined <==> u in r.users || u in r.closed)
    && (forall u :: u in r.users ==> u !in r.closed && r.state[u] != Disconnected)
    && (forall u :: u in r.closed ==> u in r.state && r.state[u] == Disconnected)
  }

  /** One announcement for each user moved, and one for each close of a user already moved. */
  ghost predicate Announcements(x: History) {
    forall u :: multiset(x.room.events)[Disconnection(u)] == multiset(x.room.closed)[u] + multiset(x.strays)[u]
  }

  ghost predicate Inv(x: History) {
    InOneList(x) && Announcements(x)
  }

  lemma MoveKeepsLists(x: History, n: nat)
    requires InOneList(x) && n < |x.room.users|
    ensures InOneList(x.(room := Moved(x.room, n)))
  {
    var r := x.room;
    WithoutIsDistinct(r.users, n);
    AppendIsDistinct(r.closed, r.users[n]);
    hide Without, NoDuplicates;
  }

  // The move of a listed user with its announcement.
  function MovedAloud(r: Room, n: nat): (s: Room)
    requires n < |r.users|
  {
    var m := Moved(r, n);
    m.(events := m.events + [Disconnection(r.users[n])])
  }

  lemma MoveKeepsInv(x: History, n: nat)
    requires Inv(x) && n < |x.room.users|
    ensures Inv(x.(room := MovedAloud(x.room, n)))
    ensures x.room.closed <= MovedAloud(x.room, n).closed && |MovedAloud(x.room, n).users| < |x.room.users|
  {
    MoveKeepsLists(x, n);
    var y := x.(room := MovedAloud(x.room, n));
    assert InOneList(y) by {
      OnlyLists(x.(room := Moved(x.room, n)), y);
    }
    hide InOneList, Without;
    assert multiset(y.room.events) == multiset(x.room.events) + multiset{Disconnection(x.room.users[n])};
    assert multiset(y.room.closed) == multiset(x.room.closed) + multiset{x.room.users[n]};
  }

  // InOneList does not depend on the events, the log or the strays.
  lemma OnlyLists(x: History, y: History)
    requires InOneList(x) && y.joined == x.joined
    requires y.room == x.room.(events := y.room.events, log := y.room.log)
    ensures InOneList(y)
  {}

  lemma LogKeepsInv(x: History, log: seq<Attempt>)
    requires Inv(x)
    ensures Inv(x.(room := x.room.(log := log)))
  {
    OnlyLists(x, x.(room := x.room.(log := log)));
  }

  lemma CloseKeepsInv(x: History, u: User)
    requires Inv(x) && u in x.joined
    ensures var y := Step(x, Close(u)); Inv(y) && x.room.closed <= y.room.closed
  {
    var n := IndexOf(x.room.users, u);
    if n < |x.room.users| {
      MoveKeepsInv(x, n);
      assert x.strays + [] == x.strays;
    } else {
      var y := Step(x, Close(u));
      OnlyLists(x, y);
      hide InOneList;
      assert multiset(y.room.events) == multiset(x.room.events) + multiset{Disconnection(u)};
      assert multiset(y.strays) == multiset(x.strays) + multiset{u};
    }
  }

  lemma ClosedIsMove(r: Room, n: nat)
    requires NoDuplicates(r.users) && n < |r.users|
    ensures Closed(r, r.users[n]) == MovedAloud(r, n)
  {
    FoundAt(r.users, n);
  }

  lemma RoundKeepsInv(x: History, n: nat, attempts: seq<Attempt>)
    requires Inv(x) && n < |x.room.users|
    ensures var m := Next(x.room, n, attempts);
      Inv(x.(room := m)) && x.room.closed <= m.closed && |m.users| < |x.room.users|
  {
    var sent := x.(room := x.room.(log := x.room.log + attempts));
    LogKeepsInv(x, x.room.log + attempts);
    ClosedIsMove(sent.room, n);
    MoveKeepsInv(sent, n);
    hide Inv, Closed, MovedAloud;
  }

  lemma {:induction false} BroadcastKeepsInv(x: History, k: nat, works: nat -> bool)
    requires Inv(x)
    ensures var y := x.(room := Broadcast(x.room, k, works)); Inv(y) && x.room.closed <= y.room.closed
    decreases |x.room.users|
  {
    hide Inv, Pass, Next, Broadcast;
    var (n, attempts) := Pass(x.room, 0, k, works);
    if n == |x.room.users| {
      LastRound(x.room, k, works);
      LogKeepsInv(x, x.room.log + attempts);
    } else {
      FailedRound(x.room, k, works);
      RoundKeepsInv(x, n, attempts);
      BroadcastKeepsInv(x.(room := Next(x.room, n, attempts)), k + |attempts|, works);
    }
  }

  lemma {:induction false} EndKeepsInv(x: History)
    requires Inv(x)
    ensures var y := x.(room := AllClosed(x.room)); Inv(y) && x.room.closed <= y.room.closed && y.room.users == []
    decreases |x.room.users|
  {
    if x.room.users != [] {
      MoveKeepsInv(x, 0);
      hide Inv;
      EndKeepsInv(x.(room := MovedAloud(x.room, 0)));
    }
  }

  lemma JoinKeepsInv(x: History, u: User, socket: int, number: nat)
    requires Inv(x) && u !in x.joined
    ensures Inv(Step(x, Join(u, socket, number)))
  {
    var y := Step(x, Join(u, socket, number));
    assert y.room.users[|x.room.users|] == u && y.joined[|x.joined|] == u;
    assert forall v :: v in y.room.users <==> v in x.room.users || v == u;
    assert forall v :: v in y.joined <==> v in x.joined || v == u;
  }

  lemma VerdictKeepsInv(x: History, number: nat, passed: bool)
    requires Inv(x)
    ensures var y := Step(x, Verdict(number, passed)); Inv(y) && x.room.closed <= y.room.closed
  {
    hide Inv, Closed, Numbered;
    var n := Numbered(x.room, number, 0);
    if n < |x.room.users| && passed {
      ListedCloseKeepsInv(x, n);
    }
  }

  lemma ListedCloseKeepsInv(x: History, n: nat)
    requires Inv(x) && n < |x.room.users|
    ensures var r := Closed(x.room, x.room.users[n]); Inv(x.(room := r)) && x.room.closed <= r.closed
  {
    ClosedIsMove(x.room, n);
    MoveKeepsInv(x, n);
    hide Inv, Closed, MovedAloud;
  }

  lemma StepKeepsInv(x: History, a: Action)
    requires Inv(x) && Allowed(x, a)
    ensures Inv(Step(x, a)) && x.room.closed <= Step(x, a).room.closed
  {
    match a
    case Join(u, socket, number) => JoinKeepsInv(x, u, socket, number);
    case Handshaken(u) =>
    case LoseSocket(u) =>
    case Close(u) => CloseKeepsInv(x, u);
    case SendRaw(works) => BroadcastKeepsInv(x, 0, works);
    case Verdict(number, passed) => VerdictKeepsInv(x, number, passed);
    case EndChat => EndKeepsInv(x);
  }

  // ----- runs -----

  ghost predicate IsRun(xs: seq<History>, actions: seq<Action>) {
    && |xs| == |actions| + 1 && xs[0] == History(Room([], [], map[], map[], map[], [], []), [], [])
    && forall i | 0 <= i < |actions| :: Allowed(xs[i], actions[i]) && xs[i + 1] == Step(xs[i], actions[i])
  }

  lemma {:induction false} RunKeepsInv(xs: seq<History>, actions: seq<Action>, i: nat)
    requires IsRun(xs, actions) && i < |xs|
    ensures Inv(xs[i])
  {
    if i > 0 {
      RunKeepsInv(xs, actions, i - 1);
      StepKeepsInv(xs[i - 1], actions[i - 1]);
    }
  }

  lemma {:induction false} ClosedListGrows(xs: seq<History>, actions: seq<Action>, i: nat, j: nat)
    requires IsRun(xs, actions) && i <= j < |xs|
    ensures xs[i].room.closed <= xs[j].room.closed
    decreases j
  {
    hide Inv, Step, Allowed;
    if i < j {
      ClosedListGrows(xs, actions, i, j - 1);
      RunKeepsInv(xs, actions, j - 1);
      StepKeepsInv(xs[j - 1], actions[j - 1]);
    }
  }

  /** At every moment of every run each user who joined is in exactly one of the two
      lists, and there once. Who was ever in the closed list is disconnected from then
      on and never listed again. The user was announced as gone once for being moved,
      and once more for each close after that. */
  lemma EachUserInOneList(xs: seq<History>, actions: seq<Action>, i: nat, j: nat, u: User)
    requires IsRun(xs, actions) && i <= j < |xs|
    ensures var r := xs[j].room;
      && (u in xs[j].joined <==> multiset(r.users)[u] + multiset(r.closed)[u] == 1)
      && (u !in xs[j].joined <==> u !in r.users && u !in r.closed)
      && (u in xs[i].room.closed ==> u !in r.users && u in r.closed && u in r.state && r.state[u] == Disconnected)
      && multiset(r.events)[Disconnection(u)] == (if u in r.closed then 1 else 0) + multiset(xs[j].strays)[u]
  {
    RunKeepsInv(xs, actions, j);
    ClosedListGrows(xs, actions, i, j);
    DistinctCountsOne(xs[j].room.users, u);
    DistinctCountsOne(xs[j].room.closed, u);
    hide NoDuplicates, IsRun;
  }

  function Announced(us: seq<User>): (es: seq<Event>) {
    if us == [] then [] else [Disconnection(us[0])] + Announced(us[1..])
  }

  lemma {:induction false} EndIsInOrder(r: Room)
    ensures AllClosed(r).closed == r.closed + r.users && AllClosed(r).events == r.events + Announced(r.users)
    decreases |r.users|
  {
    if r.users == [] {
      assert r.closed + [] == r.closed && r.events + [] == r.events;
    } else {
      var m := MovedAloud(r, 0);
      EndIsInOrder(m);
      assert m.users == r.users[1..];
      Assoc(r.closed, [r.users[0]], r.users[1..]);
      Assoc(r.events, [Disconnection(r.users[0])], Announced(r.users[1..]));
      assert r.users == [r.users[0]] + r.users[1..];
    }
  }

  /** When the chat has ended, every user who joined is closed, those still listed last, in order,
      and announced in that order. */
  lemma EndClosesEverybody(xs: seq<History>, actions: seq<Action>, i: nat)
    requires IsRun(xs, actions) && i < |actions| && actions[i] == EndChat
    ensures xs[i + 1].room.users == [] && forall u :: u in xs[i].joined ==> u in xs[i + 1].room.closed
    ensures xs[i + 1].room.closed == xs[i].room.closed + xs[i].room.users
    ensures xs[i + 1].room.events == xs[i].room.events + Announced(xs[i].room.users)
  {
    EndIsInOrder(xs[i].room);
    RunKeepsInv(xs, actions, i);
    RunKeepsInv(xs, actions, i + 1);
    EndKeepsInv(xs[i]);
  }
}
