/**
 Who is in a chat (icq/src/chat.cpp:1971-1995, 2223-2250, 2254-2319): the lists
 chatUsers and chatUsersClosed, and the raw broadcast that drops a user whose send
 fails and starts over.

 A user is an identity; its state, socket and number are kept in maps. Which sends
 fail is arbitrary: works(k) tells whether the k-th attempt of a call succeeds.
 */
module ChatRoom {
  import opened Sequences

  type User = nat

  datatype State = Handshake | Connected | Disconnected

  datatype Event = Disconnection(u: User)

  // One attempt to send the buffer to a user.
  datatype Attempt = Attempt(u: User, ok: bool)

  datatype Room = Room(
    users: seq<User>, closed: seq<User>, state: map<User, State>, socket: map<User, int>, uin: map<User, nat>,
    events: seq<Event>, log: seq<Attempt>)

  predicate Known(r: Room) {
    forall u | u in r.users :: u in r.state && u in r.socket && u in r.uin
  }

  predicate Listens(r: Room, u: User) {
    u in r.state && r.state[u] == Connected && u in r.socket && r.socket[u] != -1
  }

  function IndexOf(us: seq<User>, u: User): (n: nat)
    ensures n <= |us| && (n < |us| ==> us[n] == u) && (n == |us| <==> u !in us)
    ensures forall j :: 0 <= j < n ==> us[j] != u
  {
    if us == [] || us[0] == u then 0 else 1 + IndexOf(us[1..], u)
  }

  // The n-th user is moved to the closed list.
  function Moved(r: Room, n: nat): (s: Room)
    requires n < |r.users|
  {
    var u := r.users[n];
    r.(users := Without(r.users, n), closed := r.closed + [u], state := r.state[u := Disconnected])
  }

  // A user no longer listed is announced all the same.
  function Closed(r: Room, u: User): (s: Room) {
    var n := IndexOf(r.users, u);
    var s := if n == |r.users| then r else Moved(r, n);
    s.(events := s.events + [Disconnection(u)])
  }

  // ----- one pass of the broadcast -----

  /** From the i-th user on, the k-th attempt next: how far the pass comes and its attempts.
      It stops at the user whose send failed, or behind the last one. */
  function Pass(r: Room, i: nat, k: nat, works: nat -> bool): (p: (nat, seq<Attempt>))
    requires i <= |r.users|
    ensures i <= p.0 <= |r.users|
    decreases |r.users| - i
  {
    if i == |r.users| then (i, [])
    else
      var u := r.users[i];
      if !Listens(r, u) then Pass(r, i + 1, k, works)
      else if !works(k) then (i, [Attempt(u, false)])
      else var p := Pass(r, i + 1, k + 1, works); (p.0, [Attempt(u, true)] + p.1)
  }

  function Broadcast(r: Room, k: nat, works: nat -> bool): (s: Room)
    ensures |s.users| <= |r.users|
    decreases |r.users|
  {
    var (n, attempts) := Pass(r, 0, k, works);
    var sent := r.(log := r.log + attempts);
    if n == |r.users| then sent else Broadcast(Closed(sent, r.users[n]), k + |attempts|, works)
  }

  function AllClosed(r: Room): (s: Room)
    decreases |r.users|
  {
    if r.users == [] then r
    else
      var m := Moved(r, 0);
      AllClosed(m.(events := m.events + [Disconnection(r.users[0])]))
  }

  // ----- the manager -----

  class ChatManager {
    var chatUsers: seq<User>
    var chatUsersClosed: seq<User>
    var state: map<User, State>
    var socket: map<User, int>
    var uin: map<User, nat>
    var chatEvents: seq<Event>
    ghost var log: seq<Attempt>

    ghost function View(): Room
      reads this
    {
      Room(chatUsers, chatUsersClosed, state, socket, uin, chatEvents, log)
    }

    constructor ()
      ensures View() == Room([], [], map[], map[], map[], [], [])
    {
      chatUsers, chatUsersClosed, state, socket, uin, chatEvents := [], [], map[], map[], map[], [];
      log := [];
    }

    method CloseClient(u: User)
      modifies this
      ensures View() == Closed(old(View()), u)
    {
      var i := 0;
      while i < |chatUsers| && chatUsers[i] != u
        invariant 0 <= i <= |chatUsers| && forall j :: 0 <= j < i ==> chatUsers[j] != u
      {
        i := i + 1;
      }
      if i < |chatUsers| {
        chatUsers := chatUsers[..i] + chatUsers[i + 1..];
        state := state[u := Disconnected];
        chatUsersClosed := chatUsersClosed + [u];
      }
      chatEvents := chatEvents + [Disconnection(u)];
    }

    // The for loop: sends until a send fails, whose user it returns.
    method SendToEach(k: nat, works: nat -> bool) returns (n: nat, tries: nat)
      requires Known(View())
      modifies this`log
      ensures var p := Pass(old(View()), 0, k, works);
        n == p.0 && tries == k + |p.1| && View() == old(View()).(log := old(log) + p.1)
    {
      hide Pass, Listens, Known;
      n, tries := 0, k;
      ghost var r := View();
      ghost var all := Pass(r, 0, k, works);
      AppendNothing(log, all.1);
      while n < |chatUsers|
        invariant 0 <= n <= |chatUsers| && k <= tries && View() == r.(log := log) && Known(r)
        invariant var p := Pass(r, n, tries, works);
          p.0 == all.0 && log + p.1 == r.log + all.1 && tries + |p.1| == k + |all.1|
      {
        PassStep(r, n, tries, works);
        KnownUser(r, n);
        var u := chatUsers[n];
        if state[u] == Connected && socket[u] != -1 {
          Assoc(log, [Attempt(u, true)], Pass(r, n + 1, tries + 1, works).1);
          log := log + [Attempt(u, works(tries))];
          tries := tries + 1;
          if !works(tries - 1) {
            return;
          }
        }
        n := n + 1;
      }
      PassEnd(r, tries, works);
    }

    /** The buffer goes to every connected user; whenever a send fails that user is
        closed and the list is gone through again from its beginning. */
    method SendBufferRaw(works: nat -> bool)
      requires Known(View())
      modifies this
      ensures View() == Broadcast(old(View()), 0, works)
    {
      hide Pass, Closed;
      var ok := false;
      var tries: nat := 0;
      while !ok
        invariant Known(View())
        invariant Broadcast(old(View()), 0, works) == if ok then View() else Broadcast(View(), tries, works)
        decreases |chatUsers|, !ok
      {
        ok := true;
        ghost var before := View();
        ghost var first := tries;
        var n;
        n, tries := SendToEach(tries, works);
        if n < |chatUsers| {
          ClosedShape(View(), chatUsers[n]);
          CloseClient(chatUsers[n]);
          ok := false;
        }
      }
    }

    /** The chat ends: everybody left is moved, in order. The farewell is sent by SendBuffer, without a failure. */
    method CloseChat()
      requires Known(View())
      modifies this
      ensures View() == AllClosed(old(View()))
    {
      while |chatUsers| > 0
        invariant Known(View()) && AllClosed(View()) == AllClosed(old(View()))
        decreases |chatUsers|
      {
        var u := chatUsers[0];
        state := state[u := Disconnected];
        chatUsersClosed := chatUsersClosed + [u];
        ghost var before := chatUsers;
        chatUsers := chatUsers[1..];
        assert Without(before, 0) == chatUsers;
        chatEvents := chatEvents + [Disconnection(u)];
      }
    }

    /** A passed vote closes the first user of that number, a failed one nobody. */
    method FinishKickVote(number: nat, passed: bool)
      requires Known(View())
      modifies this
      ensures View() == Kicked(old(View()), number, passed)
    {
      var i := 0;
      while i < |chatUsers| && uin[chatUsers[i]] != number
        invariant 0 <= i <= |chatUsers| && forall j :: 0 <= j < i ==> uin[chatUsers[j]] != number
      {
        i := i + 1;
      }
      if i == |chatUsers| {
        return;
      }
      if passed {
        CloseClient(chatUsers[i]);
      }
    }
  }

  function Numbered(r: Room, number: nat, i: nat): (n: nat)
    requires i <= |r.users|
    ensures i <= n <= |r.users|
    ensures forall j :: i <= j < n ==> !(r.users[j] in r.uin && r.uin[r.users[j]] == number)
    ensures n < |r.users| ==> r.users[n] in r.uin && r.uin[r.users[n]] == number
    decreases |r.users| - i
  {
    if i == |r.users| || (r.users[i] in r.uin && r.uin[r.users[i]] == number) then i else Numbered(r, number, i + 1)
  }

  function Kicked(r: Room, number: nat, passed: bool): (s: Room) {
    var n := Numbered(r, number, 0);
    if n < |r.users| && passed then Closed(r, r.users[n]) else r
  }

  lemma AppendNothing(log: seq<Attempt>, a: seq<Attempt>)
    ensures log + a == log + a && a + [] == a
  {}

  lemma KnownUser(r: Room, n: nat)
    requires Known(r) && n < |r.users|
    ensures r.users[n] in r.state && r.users[n] in r.socket
    ensures Listens(r, r.users[n]) <==> r.state[r.users[n]] == Connected && r.socket[r.users[n]] != -1
  {}

  lemma PassStep(r: Room, i: nat, k: nat, works: nat -> bool)
    requires i < |r.users|
    ensures var u := r.users[i];
      Pass(r, i, k, works) ==
      if !Listens(r, u) then Pass(r, i + 1, k, works)
      else if !works(k) then (i, [Attempt(u, false)])
      else var p := Pass(r, i + 1, k + 1, works); (p.0, [Attempt(u, true)] + p.1)
  {}

  lemma PassEnd(r: Room, k: nat, works: nat -> bool)
    ensures Pass(r, |r.users|, k, works) == (|r.users|, [])
  {}

  lemma ClosedShape(r: Room, u: User)
    requires u in r.users
    ensures var s := Closed(r, u);
      |s.users| == |r.users| - 1 && (Known(r) ==> Known(s))
  {}
}
