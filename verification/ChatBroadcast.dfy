/**
 What the raw broadcast does to a chat (icq/src/chat.cpp:1971-1995, 2301-2319), for
 every pattern of failing sends.
 */
module ChatBroadcast {
  import opened Sequences
  import opened ChatRoom

  // Copies a user received.
  function Copies(log: seq<Attempt>, u: User): (n: nat) {
    if log == [] then 0 else (if log[0] == Attempt(u, true) then 1 else 0) + Copies(log[1..], u)
  }

  // The users whose send failed, in order.
  function Failures(log: seq<Attempt>): (us: seq<User>) {
    if log == [] then [] else (if log[0].ok then [] else [log[0].u]) + Failures(log[1..])
  }

  function Announced(us: seq<User>): (es: seq<Event>) {
    if us == [] then [] else [Disconnection(us[0])] + Announced(us[1..])
  }

  // How many of us are in c.
  function Among(us: seq<User>, c: seq<User>): (n: nat) {
    if us == [] then 0 else (if us[0] in c then 1 else 0) + Among(us[1..], c)
  }

  // How many users of c stand behind u.
  function Behind(us: seq<User>, u: User, c: seq<User>): (n: nat) {
    var i := IndexOf(us, u);
    if i == |us| then 0 else Among(us[i + 1..], c)
  }

  function Staying(us: seq<User>, c: seq<User>): (r: seq<User>) {
    if us == [] then [] else (if us[0] in c then [] else [us[0]]) + Staying(us[1..], c)
  }

  lemma {:induction false} CopiesConcat(a: seq<Attempt>, b: seq<Attempt>, u: User)
    ensures Copies(a + b, u) == Copies(a, u) + Copies(b, u)
  {
    if a == [] {
      assert a + b == b;
    } else {
      DropInLeft(a, b, 1);
      CopiesConcat(a[1..], b, u);
    }
  }

  lemma {:induction false} FailuresConcat(a: seq<Attempt>, b: seq<Attempt>)
    ensures Failures(a + b) == Failures(a) + Failures(b)
  {
    if a == [] {
      assert a + b == b;
    } else {
      DropInLeft(a, b, 1);
      FailuresConcat(a[1..], b);
      Assoc(if a[0].ok then [] else [a[0].u], Failures(a[1..]), Failures(b));
    }
  }

  lemma {:induction false} AmongConcat(a: seq<User>, b: seq<User>, c: seq<User>)
    ensures Among(a + b, c) == Among(a, c) + Among(b, c)
  {
    if a == [] {
      assert a + b == b;
    } else {
      DropInLeft(a, b, 1);
      AmongConcat(a[1..], b, c);
    }
  }

  lemma {:induction false} StayingConcat(a: seq<User>, b: seq<User>, c: seq<User>)
    ensures Staying(a + b, c) == Staying(a, c) + Staying(b, c)
  {
    if a == [] {
      assert a + b == b;
    } else {
      DropInLeft(a, b, 1);
      StayingConcat(a[1..], b, c);
      Assoc(if a[0] in c then [] else [a[0]], Staying(a[1..], c), Staying(b, c));
    }
  }

  // A user that does not stand in us makes no difference there.
  lemma {:induction false} Elsewhere(us: seq<User>, w: User, c: seq<User>)
    requires w !in us
    ensures Among(us, [w] + c) == Among(us, c) && Staying(us, [w] + c) == Staying(us, c)
  {
    if us != [] {
      Elsewhere(us[1..], w, c);
    }
  }

  lemma {:induction false} NobodyLeaves(us: seq<User>)
    ensures Among(us, []) == 0 && Staying(us, []) == us
  {
    if us != [] {
      NobodyLeaves(us[1..]);
    }
  }

  lemma {:induction false} FoundAt(us: seq<User>, j: nat)
    requires NoDuplicates(us) && j < |us|
    ensures IndexOf(us, us[j]) == j
  {}

  lemma WithoutAt(us: seq<User>, n: nat, j: nat)
    requires n < |us| && j < |us| && j != n
    ensures var rest := Without(us, n);
      var j1 := if j < n then j else j - 1;
      && rest[j1] == us[j]
      && (j < n ==> us[j + 1..] == us[j + 1..n] + ([us[n]] + us[n + 1..]) && rest[j1 + 1..] == us[j + 1..n] + us[n + 1..])
      && (j > n ==> rest[j1 + 1..] == us[j + 1..])
  {}

  // With w between them, and not.
  lemma BehindAcross(mid: seq<User>, w: User, back: seq<User>, c: seq<User>)
    requires w !in mid && w !in back
    ensures Among(mid + ([w] + back), [w] + c) == Among(mid + back, c) + 1
  {
    Elsewhere(mid, w, c);
    Elsewhere(back, w, c);
    AmongConcat(mid, [w] + back, [w] + c);
    AmongConcat([w], back, [w] + c);
    AmongConcat(mid, back, c);
    assert [w][1..] == [];
  }

  lemma NotInSlices(us: seq<User>, n: nat, j: nat)
    requires NoDuplicates(us) && n < |us| && j < |us| && j != n
    ensures us[n] !in us[n + 1..] && if j < n then us[n] !in us[j + 1..n] else us[n] !in us[j + 1..]
  {}

  lemma BehindIs(us: seq<User>, j: nat, c: seq<User>)
    requires NoDuplicates(us) && j < |us|
    ensures Behind(us, us[j], c) == Among(us[j + 1..], c)
  {
    FoundAt(us, j);
  }

  lemma LeavesOthersBehind(us: seq<User>, n: nat, j: nat, c: seq<User>)
    requires NoDuplicates(us) && n < |us| && j < |us| && j != n
    ensures Behind(us, us[j], [us[n]] + c) == Behind(Without(us, n), us[j], c) + if j < n then 1 else 0
  {
    WithoutIsDistinct(us, n);
    WithoutAt(us, n, j);
    BehindIs(us, j, [us[n]] + c);
    BehindIs(Without(us, n), if j < n then j else j - 1, c);
    NotInSlices(us, n, j);
    hide NoDuplicates, Among, Without, Behind;
    if j < n {
      BehindAcross(us[j + 1..n], us[n], us[n + 1..], c);
    } else {
      Elsewhere(us[j + 1..], us[n], c);
    }
  }

  lemma StayingWithout(us: seq<User>, n: nat, c: seq<User>)
    requires NoDuplicates(us) && n < |us|
    ensures Staying(us, [us[n]] + c) == Staying(Without(us, n), c)
  {
    var w, front, back := us[n], us[..n], us[n + 1..];
    WithoutIsDistinct(us, n);
    hide NoDuplicates;
    assert us == front + ([w] + back);
    StayingConcat(front, [w] + back, [w] + c);
    StayingConcat([w], back, [w] + c);
    StayingConcat(front, back, c);
    Elsewhere(front, w, c);
    Elsewhere(back, w, c);
    assert [w][1..] == [] && [] + Staying(back, c) == Staying(back, c);
  }

  // ----- one pass -----

  /** A pass fails on the user it stops at, who listens, and on nobody else. */
  lemma {:induction false} PassFails(r: Room, i: nat, k: nat, works: nat -> bool)
    requires i <= |r.users|
    ensures var (n, attempts) := Pass(r, i, k, works);
      && Failures(attempts) == (if n < |r.users| then [r.users[n]] else [])
      && (n < |r.users| ==> Listens(r, r.users[n]))
    decreases |r.users| - i
  {
    if i < |r.users| {
      var v := r.users[i];
      hide Listens, Pass, Failures;
      PassStep(r, i, k, works);
      if !Listens(r, v) {
        PassFails(r, i + 1, k, works);
      } else if !works(k) {
        OneFailure(v, v);
      } else {
        PassFails(r, i + 1, k + 1, works);
        OneCopy(v, Pass(r, i + 1, k + 1, works).1, v);
      }
    }
  }

  /** It sends one copy to each listening user in front of that one. */
  lemma {:induction false} PassCopies(r: Room, i: nat, k: nat, works: nat -> bool, j: nat)
    requires NoDuplicates(r.users) && i <= |r.users| && j < |r.users|
    ensures var (n, attempts) := Pass(r, i, k, works);
      Copies(attempts, r.users[j]) == if i <= j < n && Listens(r, r.users[j]) then 1 else 0
    decreases |r.users| - i
  {
    if i < |r.users| {
      var v := r.users[i];
      assert v == r.users[j] <==> i == j;
      hide NoDuplicates, Listens, Pass, Copies;
      PassStep(r, i, k, works);
      if !Listens(r, v) {
        PassCopies(r, i + 1, k, works, j);
      } else if !works(k) {
        OneFailure(v, r.users[j]);
      } else {
        PassCopies(r, i + 1, k + 1, works, j);
        OneCopy(v, Pass(r, i + 1, k + 1, works).1, r.users[j]);
      }
    }
  }

  lemma OneFailure(v: User, u: User)
    ensures Failures([Attempt(v, false)]) == [v] && Copies([Attempt(v, false)], u) == 0
  {
    assert [Attempt(v, false)][1..] == [];
  }

  lemma OneCopy(v: User, a: seq<Attempt>, u: User)
    ensures Failures([Attempt(v, true)] + a) == Failures(a)
    ensures Copies([Attempt(v, true)] + a, u) == Copies(a, u) + if u == v then 1 else 0
  {
    assert ([Attempt(v, true)] + a)[1..] == a;
  }

  // ----- the whole call -----

  // What a round leaves that failed on its n-th user.
  function Next(r: Room, n: nat, attempts: seq<Attempt>): (m: Room)
    requires n < |r.users|
  {
    Closed(r.(log := r.log + attempts), r.users[n])
  }

  // The users closed by a call, and its attempts.
  function ClosedIn(r: Room, k: nat, works: nat -> bool): (us: seq<User>)
    decreases |r.users|
  {
    var (n, attempts) := Pass(r, 0, k, works);
    if n == |r.users| then [] else [r.users[n]] + ClosedIn(Next(r, n, attempts), k + |attempts|, works)
  }

  function AttemptsOf(r: Room, k: nat, works: nat -> bool): (log: seq<Attempt>)
    decreases |r.users|
  {
    var (n, attempts) := Pass(r, 0, k, works);
    attempts + if n == |r.users| then [] else AttemptsOf(Next(r, n, attempts), k + |attempts|, works)
  }

  lemma LastRound(r: Room, k: nat, works: nat -> bool)
    requires Pass(r, 0, k, works).0 == |r.users|
    ensures var attempts := Pass(r, 0, k, works).1;
      && Broadcast(r, k, works) == r.(log := r.log + attempts)
      && ClosedIn(r, k, works) == [] && AttemptsOf(r, k, works) == attempts
  {
    hide Pass;
    assert Pass(r, 0, k, works).1 + [] == Pass(r, 0, k, works).1;
  }

  lemma FailedRound(r: Room, k: nat, works: nat -> bool)
    requires Pass(r, 0, k, works).0 < |r.users|
    ensures var (n, attempts) := Pass(r, 0, k, works);
      var m := Next(r, n, attempts);
      && Broadcast(r, k, works) == Broadcast(m, k + |attempts|, works)
      && ClosedIn(r, k, works) == [r.users[n]] + ClosedIn(m, k + |attempts|, works)
      && AttemptsOf(r, k, works) == attempts + AttemptsOf(m, k + |attempts|, works)
  {
    hide Pass, Closed;
  }

  lemma NextShape(r: Room, n: nat, attempts: seq<Attempt>)
    requires Known(r) && NoDuplicates(r.users) && n < |r.users|
    ensures var m, w := Next(r, n, attempts), r.users[n];
      && m.users == Without(r.users, n) && m.closed == r.closed + [w]
      && m.log == r.log + attempts && m.events == r.events + [Disconnection(w)]
      && m.state == r.state[w := Disconnected] && m.socket == r.socket && m.uin == r.uin
      && w in r.state && |m.users| < |r.users|
  {
    FoundAt(r.users, n);
    hide NoDuplicates, IndexOf;
  }

  lemma NextIsSound(r: Room, n: nat, attempts: seq<Attempt>)
    requires Known(r) && NoDuplicates(r.users) && n < |r.users|
    ensures Known(Next(r, n, attempts)) && NoDuplicates(Next(r, n, attempts).users)
  {
    NextShape(r, n, attempts);
    WithoutIsDistinct(r.users, n);
    hide NoDuplicates, Next;
  }

  lemma ListensAsBefore(r: Room, n: nat, attempts: seq<Attempt>, u: User)
    requires Known(r) && NoDuplicates(r.users) && n < |r.users| && u != r.users[n]
    ensures Listens(Next(r, n, attempts), u) == Listens(r, u)
  {
    NextShape(r, n, attempts);
    hide NoDuplicates, Next, Known;
  }

  /** For every pattern of failing sends: the users closed are exactly those a send to
      whom failed, in that order; they are moved to the closed list and announced once
      each, and the others stay in their order. */
  lemma {:induction false} ClosesExactlyTheFailing(r: Room, k: nat, works: nat -> bool)
    requires Known(r) && NoDuplicates(r.users)
    ensures var s, now, log := Broadcast(r, k, works), ClosedIn(r, k, works), AttemptsOf(r, k, works);
      && now == Failures(log) && s.closed == r.closed + now && s.log == r.log + log
      && s.events == r.events + Announced(now) && s.users == Staying(r.users, now)
      && s.socket == r.socket && s.uin == r.uin && Known(s) && NoDuplicates(s.users)
    decreases |r.users|
  {
    hide Known, NoDuplicates, Broadcast, Pass, Next, ClosedIn, AttemptsOf, Failures, Announced, Staying;
    var (n, attempts) := Pass(r, 0, k, works);
    PassFails(r, 0, k, works);
    if n == |r.users| {
      LastRound(r, k, works);
      NobodyLeaves(r.users);
      NobodyAnnounced(r);
      KnownWithLog(r, r.log + attempts);
    } else {
      FailedRound(r, k, works);
      NextShape(r, n, attempts);
      NextIsSound(r, n, attempts);
      var w, m := r.users[n], Next(r, n, attempts);
      var now, log := ClosedIn(m, k + |attempts|, works), AttemptsOf(m, k + |attempts|, works);
      ClosesExactlyTheFailing(m, k + |attempts|, works);
      FailuresConcat(attempts, log);
      StayingWithout(r.users, n, now);
      OneAnnounced(r, w, now);
      Assoc(r.closed, [w], now);
      Assoc(r.log, attempts, log);
    }
  }

  lemma NobodyAnnounced(r: Room)
    ensures r.events + Announced([]) == r.events && r.closed + [] == r.closed
  {}

  lemma KnownWithLog(r: Room, log: seq<Attempt>)
    requires Known(r)
    ensures Known(r.(log := log))
  {}

  lemma OneAnnounced(r: Room, w: User, us: seq<User>)
    ensures r.events + Announced([w] + us) == r.events + [Disconnection(w)] + Announced(us)
  {
    assert ([w] + us)[1..] == us;
    Assoc(r.events, [Disconnection(w)], Announced(us));
  }

  lemma {:induction false} NoStateIsLost(r: Room, k: nat, works: nat -> bool)
    requires Known(r) && NoDuplicates(r.users)
    ensures Broadcast(r, k, works).state.Keys == r.state.Keys
    decreases |r.users|
  {
    hide Known, NoDuplicates, Broadcast, Pass, Next, ClosedIn, AttemptsOf, Without;
    var (n, attempts) := Pass(r, 0, k, works);
    if n == |r.users| {
      LastRound(r, k, works);
    } else {
      FailedRound(r, k, works);
      NextShape(r, n, attempts);
      NextIsSound(r, n, attempts);
      NoStateIsLost(Next(r, n, attempts), k + |attempts|, works);
    }
  }

  lemma ListensIff()
    ensures forall r, u :: Listens(r, u) <==> u in r.state && r.state[u] == Connected && u in r.socket && r.socket[u] != -1
  {}

  /** A user the call closes was connected and is disconnected then; nobody else's
      state changes. */
  lemma {:induction false} StateAfterwards(r: Room, k: nat, works: nat -> bool, u: User)
    requires Known(r) && NoDuplicates(r.users)
    ensures var s, now := Broadcast(r, k, works), ClosedIn(r, k, works);
      && (u in s.state <==> u in r.state)
      && (u in now ==> u in r.users && r.socket[u] != -1 && r.state[u] == Connected && u in s.state && s.state[u] == Disconnected)
      && (u !in now && u in r.state ==> u in s.state && s.state[u] == r.state[u])
    decreases |r.users|
  {
    hide Known, NoDuplicates, Broadcast, Pass, Next, ClosedIn, AttemptsOf, Listens, Without;
    NoStateIsLost(r, k, works);
    ListensIff();
    var (n, attempts) := Pass(r, 0, k, works);
    PassFails(r, 0, k, works);
    if n == |r.users| {
      LastRound(r, k, works);
    } else {
      FailedRound(r, k, works);
      NextShape(r, n, attempts);
      NextIsSound(r, n, attempts);
      WithoutIsDistinct(r.users, n);
      StateAfterwards(Next(r, n, attempts), k + |attempts|, works, u);
      if u != r.users[n] {
        ListensAsBefore(r, n, attempts, u);
      }
    }
  }

  lemma SurvivorWasThere(r: Room, k: nat, works: nat -> bool, u: User)
    requires Known(r) && NoDuplicates(r.users) && u in Broadcast(r, k, works).users
    ensures u in r.users && u !in ClosedIn(r, k, works) && IndexOf(r.users, u) < |r.users|
    ensures var n := Pass(r, 0, k, works).0; n < |r.users| ==> u != r.users[n]
  {
    ClosesExactlyTheFailing(r, k, works);
    StayersWereThere(r.users, ClosedIn(r, k, works));
    hide Pass, Known, NoDuplicates, Broadcast, Staying, IndexOf;
  }

  /** A connected user who survives the call receives one copy, and one more for each
      user behind it who was closed: those are the rounds that started over after it. */
  lemma {:induction false} CopiesOfSurvivor(r: Room, k: nat, works: nat -> bool, u: User)
    requires Known(r) && NoDuplicates(r.users) && u in Broadcast(r, k, works).users
    ensures Copies(AttemptsOf(r, k, works), u) ==
            if u in r.state && r.state[u] == Connected && u in r.socket && r.socket[u] != -1
            then 1 + Behind(r.users, u, ClosedIn(r, k, works)) else 0
    decreases |r.users|
  {
    hide Known, NoDuplicates, Broadcast, Pass, Next, ClosedIn, AttemptsOf, Listens, IndexOf, Behind, Copies, Staying;
    var (n, attempts) := Pass(r, 0, k, works);
    SurvivorWasThere(r, k, works, u);
    ListensIff();
    PassCopies(r, 0, k, works, IndexOf(r.users, u));
    if n == |r.users| {
      LastRound(r, k, works);
      NobodyBehind(r.users, u);
    } else {
      FailedRound(r, k, works);
      NextShape(r, n, attempts);
      NextIsSound(r, n, attempts);
      var w, m := r.users[n], Next(r, n, attempts);
      var now, log := ClosedIn(m, k + |attempts|, works), AttemptsOf(m, k + |attempts|, works);
      CopiesOfSurvivor(m, k + |attempts|, works, u);
      CopiesConcat(attempts, log, u);
      hide Without;
      LeavesOthersBehind(r.users, n, IndexOf(r.users, u), now);
      ListensAsBefore(r, n, attempts, u);
    }
  }

  lemma NobodyBehind(us: seq<User>, u: User)
    ensures Behind(us, u, []) == 0
  {
    var i := IndexOf(us, u);
    if i < |us| {
      NobodyLeaves(us[i + 1..]);
    }
  }

  lemma {:induction false} StayersWereThere(us: seq<User>, c: seq<User>)
    ensures forall u :: u in Staying(us, c) <==> u in us && u !in c
  {
    if us != [] {
      StayersWereThere(us[1..], c);
    }
  }
}
