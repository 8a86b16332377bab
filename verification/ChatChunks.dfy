/**
 Chunk independence: how TCP cuts a chat stream into receives does not change
 what the parser makes of it, except for where runs of text are split.
 */
module ChatChunks {
  import opened Bytes
  import opened ChatStream
  import opened Sequences

  // ----- runs of text, character by character -----

  function Singles(e: Event): (r: seq<Event>) {
    if e.command == CHARACTER
    then seq(|e.data.raw|, i requires 0 <= i < |e.data.raw| => Event(CHARACTER, Text([e.data.raw[i]], e.data.encoding)))
    else [e]
  }

  function Explode(es: seq<Event>): (r: seq<Event>) {
    if es == [] then [] else Singles(es[0]) + Explode(es[1..])
  }

  function Exploded(u: User): User {
    u.(events := Explode(u.events))
  }

  lemma {:induction false} ExplodeConcat(a: seq<Event>, b: seq<Event>)
    ensures Explode(a + b) == Explode(a) + Explode(b)
  {
    hide Singles;
    if a == [] {
      assert a + b == b;
    } else {
      ExplodeConcat(a[1..], b);
      DropInLeft(a, b, 1);
      Assoc(Singles(a[0]), Explode(a[1..]), Explode(b));
    }
  }

  lemma ExplodeOne(e: Event)
    ensures Explode([e]) == Singles(e)
  {
    assert Explode([e][1..]) == [];
  }

  // The state after n printable bytes, taken one at a time.
  function AfterText(u: User, n: nat): User
    requires n <= |u.queue|
  {
    var run := u.queue[..n];
    User(u.queue[n..], u.looks.(line := u.looks.line + run),
         u.events + Singles(Event(CHARACTER, Text(run, u.looks.encoding))), u.astray)
  }

  lemma PrintableHead(d: Dialect, q: seq<Byte>)
    requires q != [] && !IsControl(q[0])
    ensures Next(d, false, q) == Printable([q[0]])
  {}

  lemma {:induction false} TextByText(d: Dialect, u: User, n: nat)
    requires !u.astray && n <= RunLength(u.queue)
    ensures Run(d, false, u) == Run(d, false, AfterText(u, n))
    decreases n
  {
    if n == 0 {
      assert u.looks.line + [] == u.looks.line;
      assert AfterText(u, 0) == u;
    } else {
      PrintableHead(d, u.queue);
      var v := Step(d, false, u);
      assert v == AfterText(u, 1) by {
        assert [u.queue[0]] == u.queue[..1];
        var e := Event(CHARACTER, Text([u.queue[0]], u.looks.encoding));
        assert Singles(e) == [e];
      }
      TextByText(d, v, n - 1);
      TextOneMore(u, v, n);
    }
  }

  lemma SinglesConcat(a: seq<Byte>, b: seq<Byte>, encoding: Byte)
    ensures Singles(Event(CHARACTER, Text(a, encoding))) + Singles(Event(CHARACTER, Text(b, encoding)))
         == Singles(Event(CHARACTER, Text(a + b, encoding)))
  {}

  lemma TextOneMore(u: User, v: User, n: nat)
    requires 0 < n <= |u.queue|
    requires v == AfterText(u, 1)
    ensures AfterText(v, n - 1) == AfterText(u, n)
  {
    hide Singles;
    var first, later := u.queue[..1], u.queue[1..][..n - 1];
    SplitAt(u.queue, 1, n - 1);
    DropTwice(u.queue, 1, n - 1);
    Assoc(u.looks.line, first, later);
    SinglesConcat(first, later, u.looks.encoding);
    Assoc(u.events, Singles(Event(CHARACTER, Text(first, u.looks.encoding))),
      Singles(Event(CHARACTER, Text(later, u.looks.encoding))));
  }

  /** Taking text a run at a time only fuses adjacent CHAT_CHARACTER events. */
  lemma {:induction false} GreedyIsCharwise(d: Dialect, u: User)
    ensures Exploded(Run(d, true, u)) == Run(d, false, Exploded(u))
    decreases if u.astray then 0 else 1 + |u.queue|
  {
    if !Waits(d, u) {
      var v := Step(d, true, u);
      GreedyIsCharwise(d, v);
      var h := HeadOf(d, u.queue);
      ExplodeConcat(u.events, News(h, u.looks));
      if h.Printable? {
        ExplodeOne(News(h, u.looks)[0]);
        TextByText(d, Exploded(u), |h.run|);
        assert Exploded(v) == AfterText(Exploded(u), |h.run|);
      } else if !h.Unreadable? {
        NewsIsNotText(h, u.looks);
        assert Exploded(v) == Step(d, false, Exploded(u));
      }
    }
  }

  lemma NewsIsNotText(h: Head, l: Looks)
    requires !h.Printable?
    ensures Explode(News(h, l)) == News(h, l)
  {
    if News(h, l) != [] {
      ExplodeOne(News(h, l)[0]);
    }
  }

  // ----- more bytes never change a step already possible -----

  lemma HeadV6IsStable(q: seq<Byte>, more: seq<Byte>)
    requires q != [] && q[0] == 0 && !HeadV6(q).Partial?
    ensures HeadV6(q + more) == HeadV6(q)
  {
    var p := q + more;
    assert p[2..6] == q[2..6];
    var size: int := SignExtended(FromLe32(q[2..6]));
    var length: int := if q[1] == FONT_FAMILY then size - 1 else size;
    if 0 <= length < 0x1_0000 {
      assert p[6..6 + length] == q[6..6 + length];
    }
  }

  lemma HeadV2IsStable(q: seq<Byte>, more: seq<Byte>)
    requires q != [] && LengthV2(q) > 0 && !HeadV2(q).Partial?
    ensures HeadV2(q + more) == HeadV2(q)
  {
    var p := q + more;
    var n := LengthV2(q);
    if |q| >= 3 {
      assert p[1..3] == q[1..3];
    }
    assert LengthV2(p) == n;
    assert p[..n] == q[..n];
    assert p[1..n] == q[1..n];
  }

  lemma NextIsStable(d: Dialect, q: seq<Byte>, more: seq<Byte>)
    requires q != [] && !HeadOf(d, q).Partial?
    ensures Next(d, false, q + more) == Next(d, false, q)
  {
    if d == V6 && q[0] == 0 {
      HeadV6IsStable(q, more);
    } else if d == V2 && LengthV2(q) > 0 {
      HeadV2IsStable(q, more);
    } else if !IsControl(q[0]) {
      PrintableHead(d, q);
      PrintableHead(d, q + more);
    }
  }

  lemma StepIsStable(d: Dialect, u: User, more: seq<Byte>)
    requires !Waits(d, u)
    ensures !Waits(d, u.Receive(more))
    ensures Step(d, false, u.Receive(more)) == Step(d, false, u).Receive(more)
  {
    NextIsStable(d, u.queue, more);
    var used := Used(Next(d, false, u.queue));
    DropInLeft(u.queue, more, used);
  }

  lemma {:induction false} RunIsStable(d: Dialect, u: User, more: seq<Byte>)
    ensures Run(d, false, u.Receive(more)) == Run(d, false, Run(d, false, u).Receive(more))
    decreases if u.astray then 0 else 1 + |u.queue|
  {
    if !Waits(d, u) {
      StepIsStable(d, u, more);
      RunIsStable(d, Step(d, false, u), more);
    }
  }

  // ----- the theorem -----

  // ProcessRaw on each of a list of received chunks, in turn.
  function ProcessRaw(d: Dialect, u: User, chunks: seq<seq<Byte>>): (v: User)
    decreases |chunks|
  {
    if chunks == [] then u
    else ProcessRaw(d, Run(d, true, u.Receive(chunks[0])), chunks[1..])
  }

  function Flatten(chunks: seq<seq<Byte>>): (s: seq<Byte>) {
    if chunks == [] then [] else chunks[0] + Flatten(chunks[1..])
  }

  lemma {:induction false} ChunksAsOne(d: Dialect, u: User, chunks: seq<seq<Byte>>)
    requires Waits(d, u)
    ensures Exploded(ProcessRaw(d, u, chunks)) == Run(d, false, Exploded(u).Receive(Flatten(chunks)))
    decreases |chunks|
  {
    hide HeadOf;
    if chunks == [] {
      assert u.Receive([]) == u;
      assert Exploded(u).Receive([]) == Exploded(u);
    } else {
      var w := u.Receive(chunks[0]);
      var v := Run(d, true, w);
      GreedyIsCharwise(d, w);
      ChunksAsOne(d, v, chunks[1..]);
      assert Exploded(w) == Exploded(u).Receive(chunks[0]);
      RunIsStable(d, Exploded(w), Flatten(chunks[1..]));
      Assoc(u.queue, chunks[0], Flatten(chunks[1..]));
    }
  }

  // Fuse a CHAT_CHARACTER event with the one that follows it.
  function Fuse(e: Event, es: seq<Event>): (r: seq<Event>) {
    if e.command == CHARACTER && es != [] && es[0].command == CHARACTER && es[0].data.encoding == e.data.encoding
    then [Event(CHARACTER, Text(e.data.raw + es[0].data.raw, e.data.encoding))] + es[1..]
    else [e] + es
  }

  function Merge(es: seq<Event>): (r: seq<Event>) {
    if es == [] then [] else Fuse(es[0], Merge(es[1..]))
  }

  predicate NoEmptyText(es: seq<Event>) {
    forall e | e in es :: e.command == CHARACTER ==> e.data.raw != []
  }

  lemma {:induction false} MergeSingles(e: Event, es: seq<Event>)
    requires e.command == CHARACTER ==> e.data.raw != []
    ensures Merge(Singles(e) + es) == Fuse(e, Merge(es))
    decreases |e.data.raw|
  {
    var s := Singles(e);
    assert (s + es)[0] == s[0] && (s + es)[1..] == s[1..] + es;
    if e.command != CHARACTER || |e.data.raw| == 1 {
      if e.command == CHARACTER {
        assert [e.data.raw[0]] == e.data.raw;
      }
      assert s == [e] && s[1..] + es == es;
    } else {
      var tail := Event(CHARACTER, Text(e.data.raw[1..], e.data.encoding));
      assert s[1..] == Singles(tail);
      MergeSingles(tail, es);
      FuseAssociates(s[0], tail, Merge(es));
      assert s[0].data.raw + tail.data.raw == e.data.raw;
    }
  }

  lemma FuseAssociates(a: Event, b: Event, es: seq<Event>)
    requires a.command == b.command == CHARACTER && a.data.encoding == b.data.encoding
    ensures Fuse(a, Fuse(b, es)) == Fuse(Event(CHARACTER, Text(a.data.raw + b.data.raw, a.data.encoding)), es)
  {
    if es != [] {
      assert a.data.raw + (b.data.raw + es[0].data.raw) == (a.data.raw + b.data.raw) + es[0].data.raw;
    }
  }

  /** Merging adjacent text loses exactly where the runs were split. */
  lemma {:induction false} MergeOfExplode(es: seq<Event>)
    requires NoEmptyText(es)
    ensures Merge(Explode(es)) == Merge(es)
  {
    if es != [] {
      MergeSingles(es[0], Explode(es[1..]));
      MergeOfExplode(es[1..]);
    }
  }

  lemma {:induction false} RunKeepsTextNonEmpty(d: Dialect, u: User)
    requires NoEmptyText(u.events)
    ensures NoEmptyText(Run(d, true, u).events)
    decreases if u.astray then 0 else 1 + |u.queue|
  {
    if !Waits(d, u) {
      RunKeepsTextNonEmpty(d, Step(d, true, u));
    }
  }

  lemma {:induction false} ProcessKeepsTextNonEmpty(d: Dialect, u: User, chunks: seq<seq<Byte>>)
    requires NoEmptyText(u.events)
    ensures NoEmptyText(ProcessRaw(d, u, chunks).events)
    decreases |chunks|
  {
    if chunks != [] {
      RunKeepsTextNonEmpty(d, u.Receive(chunks[0]));
      ProcessKeepsTextNonEmpty(d, Run(d, true, u.Receive(chunks[0])), chunks[1..]);
    }
  }

  // Equal in every field, and in the events once adjacent text is merged.
  predicate SameOnceMerged(u: User, v: User) {
    u.(events := []) == v.(events := []) && Merge(u.events) == Merge(v.events)
  }

  /** Two ways of cutting the same stream into receives end in the same queue,
      line buffer, colours, fonts and flags, and in the same merged events. This
      holds of every stream in both dialects: of a stream that leads the parser
      astray it says that every cut leads it astray at the same byte. */
  lemma ChunkIndependence(d: Dialect, u: User, cut1: seq<seq<Byte>>, cut2: seq<seq<Byte>>)
    requires Waits(d, u) && NoEmptyText(u.events)
    requires Flatten(cut1) == Flatten(cut2)
    ensures SameOnceMerged(ProcessRaw(d, u, cut1), ProcessRaw(d, u, cut2))
  {
    var v1, v2 := ProcessRaw(d, u, cut1), ProcessRaw(d, u, cut2);
    ChunksAsOne(d, u, cut1);
    ChunksAsOne(d, u, cut2);
    ProcessKeepsTextNonEmpty(d, u, cut1);
    ProcessKeepsTextNonEmpty(d, u, cut2);
    MergeOfExplode(v1.events);
    MergeOfExplode(v2.events);
    assert v1.(events := []) == Exploded(v1).(events := []);
    assert v2.(events := []) == Exploded(v2).(events := []);
  }
}
