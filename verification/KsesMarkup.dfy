/**
 What the tag filter keeps (licqweb/kses.php:70-185): markup as people write it, and
 what comes out for each piece of it. Allowed tags stay, with their allowed attributes;
 tags that are not allowed are shown as text; clean markup is left alone.
 */
module KsesMarkup {
  import opened Sequences
  import opened KsesEntities
  import opened KsesProtocol
  import opened KsesHair
  import opened KsesWritten
  import opened KsesTags

  datatype Piece =
    | Words(text: string)
    | Bracket
    | Opening(blank: string, element: string, lead: string, attrs: List)
    | Closing(blank: string, gap: string, element: string, rest: string)
    | Nonsense(blank: string, rest: string)

  // Between the brackets of a tag.
  function Inner(p: Piece): (s: string) {
    match p
    case Opening(blank, element, lead, attrs) => blank + (element + (lead + ListSpelling(attrs)))
    case Closing(blank, gap, element, rest) => blank + ("/" + (gap + (element + rest)))
    case Nonsense(blank, rest) => blank + rest
    case _ => ""
  }

  predicate IsTag(p: Piece) {
    p.Opening? || p.Closing? || p.Nonsense?
  }

  function Source(p: Piece): (s: string) {
    match p
    case Words(text) => text
    case Bracket => ">"
    case _ => "<" + (Inner(p) + ">")
  }

  predicate IsElement(s: string) {
    s != "" && forall i :: 0 <= i < |s| ==> IsLetter(s[i]) || IsDigit(s[i])
  }

  predicate StartsOther(s: string) {
    s != "" ==> !IsLetter(s[0]) && !IsDigit(s[0])
  }

  /** What can be written: no other brackets; attributes behind white space; nonsense has
      no element's name. */
  predicate ProperPiece(p: Piece) {
    && NoAngles(Inner(p))
    && match p
       case Words(text) => NoAngles(text)
       case Bracket => true
       case Opening(blank, element, lead, attrs) =>
         Blank(blank) && IsElement(element) && Blank(lead) && ProperList(attrs) && (lead == "" ==> attrs == [])
       case Closing(blank, gap, element, rest) =>
         Blank(blank) && Blank(gap) && IsElement(element) && StartsOther(rest)
       case Nonsense(blank, rest) =>
         Blank(blank) && StartsOther(rest) && (rest != "" ==> !IsSpace(rest[0]) && rest[0] != '/')
  }

  // ----- what should come out -----

  function Kept(attrs: seq<Attr>, rules: map<string, AttrRule>): (s: string) {
    if attrs == [] then ""
    else (if AllowedAttr(attrs[0], rules) then " " + attrs[0].whole else "") + Kept(attrs[1..], rules)
  }

  /** A slash by itself behind white space ends the list. */
  predicate EndsInSlash(attrs: List) {
    && attrs != []
    && match attrs[|attrs| - 1].0
       case Flag(_) => false
       case Assigned(_, _, right, value, quoting) => quoting == NoQuotes && value == "/" && right != ""
       case Junk(text) => text == "/"
       case Spoiled(_, _, _, _) => false
  }

  // A tag shown as text.
  function Disarmed(p: Piece, closed: bool): (s: string) {
    "&lt;" + (Inner(p) + if closed then "&gt;" else "")
  }

  /** closed: whether the tag has its closing bracket, which the last one need not have. */
  function Outcome(p: Piece, closed: bool, allowed: AllowList, protocols: seq<string>): (s: string) {
    match p
    case Words(text) => text
    case Bracket => "&gt;"
    case Opening(_, element, _, attrs) =>
      if Lower(element) !in allowed then Disarmed(p, closed)
      else
        "<" + (element + (Kept(Records(attrs, protocols), allowed[Lower(element)])
          + ((if EndsInSlash(attrs) then " /" else "") + ">")))
    case Closing(_, _, element, _) =>
      if Lower(element) !in allowed then Disarmed(p, closed) else "</" + (element + ">")
    case Nonsense(_, _) => ""
  }

  function AllSource(ps: seq<Piece>): (s: string) {
    if ps == [] then "" else Source(ps[0]) + AllSource(ps[1..])
  }

  function AllOutcome(ps: seq<Piece>, allowed: AllowList, protocols: seq<string>): (s: string) {
    if ps == [] then "" else Outcome(ps[0], true, allowed, protocols) + AllOutcome(ps[1..], allowed, protocols)
  }

  predicate NoBrackets(protocols: seq<string>) {
    HoldsNo(protocols, '<') && HoldsNo(protocols, '>')
  }

  // ----- a tag is taken apart -----

  function End(closed: bool): string {
    if closed then ">" else ""
  }

  lemma NameIsFound(element: string, rest: string, closed: bool, closing: bool)
    requires IsElement(element) && StartsOther(rest) && '>' !in rest
    ensures NameAndRest(element + (rest + End(closed)), closing) == KsesTags.Parts(closing, element, rest)
  {
    var tail := rest + End(closed);
    var s := element + tail;
    RestIsFound(rest, closed);
    assert forall i :: 0 <= i < |element| ==> In(Alnum, element[i]);
    RunExactly(Alnum, element, tail);
    assert s[|element|..] == tail && s[..|element|] == element;
    hide Run, IndexOf;
    assert s[|element|..|element| + |rest|] == tail[..|rest|];
  }

  lemma RestIsFound(rest: string, closed: bool)
    requires StartsOther(rest) && '>' !in rest
    ensures var tail := rest + End(closed);
      IndexOf('>', tail) == |rest| && tail[..|rest|] == rest && (tail == "" || !In(Alnum, tail[0]))
  {
    var tail := rest + End(closed);
    assert tail != "" ==> tail[0] == if rest != "" then rest[0] else '>';
    assert tail[..|rest|] == rest;
    if closed {
      IndexExactly('>', rest, ">");
    } else {
      assert tail == rest;
      NotFound(tail);
    }
  }

  lemma NotFound(s: string)
    requires '>' !in s
    ensures IndexOf('>', s) == |s|
  {}

  lemma BlankIsSpanned(blank: string, s: string)
    requires Blank(blank) && (s != "" ==> !IsSpace(s[0]))
    ensures (blank + s)[Span(Space, blank + s)..] == s
  {
    GapIsSpanned(blank, s);
  }

  lemma OpeningIsFound(p: Piece, closed: bool)
    requires p.Opening? && ProperPiece(p)
    ensures TagParts("<" + (Inner(p) + End(closed))) == KsesTags.Parts(false, p.element, p.lead + ListSpelling(p.attrs))
  {
    var rest := p.lead + ListSpelling(p.attrs);
    var b := p.element + (rest + End(closed));
    var s := "<" + (Inner(p) + End(closed));
    assert s[1..] == p.blank + b by {
      Assoc(p.blank, p.element + rest, End(closed));
      Assoc(p.element, rest, End(closed));
    }
    assert b[0] == p.element[0];
    BlankIsSpanned(p.blank, b);
    assert '>' !in rest by {
      assert forall c :: c in rest ==> c in p.element + rest;
      assert forall c :: c in rest ==> c in Inner(p);
    }
    assert StartsOther(rest) by {
      if p.lead != "" {
        assert rest[0] == p.lead[0];
      }
    }
    NameIsFound(p.element, rest, closed, false);
    hide NameAndRest, Span, ListSpelling;
  }

  lemma ClosingIsFound(p: Piece, closed: bool)
    requires p.Closing? && ProperPiece(p)
    ensures TagParts("<" + (Inner(p) + End(closed))) == KsesTags.Parts(true, p.element, p.rest)
  {
    var c := p.element + (p.rest + End(closed));
    var b := "/" + (p.gap + c);
    var s := "<" + (Inner(p) + End(closed));
    ClosingInARow(p, closed);
    assert c[0] == p.element[0];
    NameIsFound(p.element, p.rest, closed, true);
    hide NameAndRest, Inner, StartsOther;
    BlankIsSpanned(p.blank, b);
    BlankIsSpanned(p.gap, c);
    hide Span;
    assert b[1..] == p.gap + c;
  }

  lemma ClosingInARow(p: Piece, closed: bool)
    requires p.Closing? && NoAngles(Inner(p))
    ensures ("<" + (Inner(p) + End(closed)))[1..]
      == p.blank + ("/" + (p.gap + (p.element + (p.rest + End(closed)))))
    ensures '>' !in p.rest
  {
    Assoc(p.blank, "/" + (p.gap + (p.element + p.rest)), End(closed));
    Assoc("/", p.gap + (p.element + p.rest), End(closed));
    Assoc(p.gap, p.element + p.rest, End(closed));
    Assoc(p.element, p.rest, End(closed));
    assert forall x :: x in p.rest ==> x in p.element + p.rest;
    assert forall x :: x in p.rest ==> x in p.gap + (p.element + p.rest);
    assert forall x :: x in p.rest ==> x in Inner(p);
  }

  lemma NoName(s: string)
    requires s == "" || !In(Alnum, s[0])
    ensures NameAndRest(s, false).NoMatch?
  {
    assert Run(Alnum, s) == 0;
  }

  lemma NothingIsFound(p: Piece, closed: bool)
    requires p.Nonsense? && ProperPiece(p)
    ensures TagParts("<" + (Inner(p) + End(closed))).NoMatch?
  {
    var b := p.rest + End(closed);
    var s := "<" + (Inner(p) + End(closed));
    assert b != "" ==> b[0] == if p.rest != "" then p.rest[0] else '>';
    BlankIsSpanned(p.blank, b);
    NoName(b);
    Assoc(p.blank, p.rest, End(closed));
    hide Span, NameAndRest, ProperPiece, In;
    assert s[1..] == p.blank + b;
  }

  // ----- the slash at the end -----

  lemma {:induction false} TrailingIs(x: string, gap: string)
    requires Blank(gap) && (x != "" ==> !IsSpace(x[|x| - 1]))
    ensures TrailingSpaces(x + gap) == |gap|
    decreases |gap|
  {
    var s := x + gap;
    if gap == "" {
      assert s == x;
    } else {
      assert s[|s| - 1] == gap[|gap| - 1];
      assert s[..|s| - 1] == x + gap[..|gap| - 1];
      TrailingIs(x, gap[..|gap| - 1]);
    }
  }

  lemma {:induction false} ListSpellingConcat(a: List, b: List)
    ensures ListSpelling(a + b) == ListSpelling(a) + ListSpelling(b)
  {
    hide Spelling;
    if a == [] {
      assert a + b == b && "" + ListSpelling(b) == ListSpelling(b);
    } else {
      DropInLeft(a, b, 1);
      ListSpellingConcat(a[1..], b);
      Assoc(a[0].1, ListSpelling(a[1..]), ListSpelling(b));
      Assoc(Spelling(a[0].0), a[0].1 + ListSpelling(a[1..]), ListSpelling(b));
    }
  }

  lemma ListSpellingOfOne(x: (Written, string))
    ensures ListSpelling([x]) == Spelling(x.0) + x.1
  {
    hide Spelling;
    assert [x][1..] == [];
    assert x.1 + "" == x.1;
  }

  // In front of the last item stands white space.
  lemma BeforeLast(lead: string, ws: List)
    requires Blank(lead) && lead != "" && ProperList(ws) && ws != []
    ensures var front := lead + ListSpelling(ws[..|ws| - 1]);
      front != "" && IsSpace(front[|front| - 1])
    ensures lead + ListSpelling(ws) == (lead + ListSpelling(ws[..|ws| - 1])) + (Spelling(ws[|ws| - 1].0) + ws[|ws| - 1].1)
  {
    hide Spelling, Proper;
    var n := |ws|;
    var front, last := ws[..n - 1], ws[n - 1];
    assert ws == front + [last];
    ListSpellingConcat(front, [last]);
    ListSpellingOfOne(last);
    Assoc(lead, ListSpelling(front), Spelling(last.0) + last.1);
    if n > 1 {
      assert front == front[..n - 2] + [front[n - 2]];
      ListSpellingConcat(front[..n - 2], [front[n - 2]]);
      ListSpellingOfOne(front[n - 2]);
      assert ws[n - 2].1 != "";
    }
  }

  lemma SpellingEnds(w: Written)
    requires Proper(w)
    ensures var t := Spelling(w);
      && t != "" && !IsSpace(t[|t| - 1])
      && (t[|t| - 1] == '/' ==>
           match w
           case Flag(_) => false
           case Assigned(_, _, right, value, quoting) =>
             && quoting == NoQuotes && |t| >= 2
             && (IsSpace(t[|t| - 2]) <==> value == "/" && right != "")
           case Junk(text) => |text| >= 2 ==> !IsSpace(t[|t| - 2])
           case Spoiled(_, _, _, _) => |t| >= 2 && !IsSpace(t[|t| - 2]))
  {
    match w {
      case Assigned(_, _, _, _, _) => AssignedEnds(w);
      case Spoiled(_, _, _, _) => SpoiledEnds(w);
      case _ =>
    }
  }

  lemma {:induction false} ChunksEnd(cs: seq<Chunk>)
    requires |cs| >= 1 && forall i :: 0 <= i < |cs| ==> ProperChunk(cs[i])
    ensures var t := Chunks(cs);
      && t != "" && !IsSpace(t[|t| - 1])
      && (t[|t| - 1] == '/' && |cs| >= 2 ==> |t| >= 2 && !IsSpace(t[|t| - 2]))
      && (t[|t| - 1] == '/' && |t| >= 2 ==> !IsSpace(t[|t| - 2]))
  {
    var first, rest := ChunkText(cs[0]), Chunks(cs[1..]);
    ChunkEnds(cs[0]);
    if |cs| == 1 {
      assert cs[1..] == [] && first + "" == first;
    } else {
      ChunksEnd(cs[1..]);
      hide ChunkText;
      var t := first + rest;
      assert t[|t| - 1] == rest[|rest| - 1];
      assert t[|t| - 2] == if |rest| >= 2 then rest[|rest| - 2] else first[|first| - 1];
    }
  }

  lemma ChunkEnds(c: Chunk)
    requires ProperChunk(c)
    ensures var t := ChunkText(c);
      t != "" && !IsSpace(t[|t| - 1]) && (t[|t| - 1] == '/' && |t| >= 2 ==> !IsSpace(t[|t| - 2]))
  {}

  lemma SpoiledEnds(w: Written)
    requires w.Spoiled? && Proper(w)
    ensures var t := Spelling(w);
      && t != "" && !IsSpace(t[|t| - 1])
      && (t[|t| - 1] == '/' ==> |t| >= 2 && !IsSpace(t[|t| - 2]))
  {
    var cs := Chunks(w.chunks);
    ChunksEnd(w.chunks);
    hide Chunks;
    assert Spelling(w) == (w.name + (w.left + ("=" + w.right))) + cs;
  }

  lemma AssignedEnds(w: Written)
    requires w.Assigned? && Proper(w)
    ensures var t, q := Spelling(w), InQuotes(w.value, w.quoting);
      && t != "" && q != "" && |t| >= 2 && t[|t| - 1] == q[|q| - 1]
      && t[|t| - 2] == if |q| >= 2 then q[|q| - 2] else if w.right != "" then w.right[|w.right| - 1] else '='
  {
    var q := InQuotes(w.value, w.quoting);
    hide InQuotes;
    assert q != "" by {
      QuotedIsSomething(w.value, w.quoting);
    }
    var e := "=" + (w.right + q);
    assert e[|e| - 1] == q[|q| - 1];
    assert e[|e| - 2] == if |q| >= 2 then q[|q| - 2] else if w.right != "" then w.right[|w.right| - 1] else '=';
    assert Spelling(w) == (w.name + w.left) + e;
  }

  lemma QuotedIsSomething(value: string, quoting: Quoting)
    requires quoting == NoQuotes ==> value != ""
    ensures InQuotes(value, quoting) != ""
  {}

  lemma SlashIsFound(lead: string, ws: List)
    requires Blank(lead) && ProperList(ws) && (lead == "" ==> ws == [])
    ensures EndsWithSlash(lead + ListSpelling(ws)) == EndsInSlash(ws)
  {
    hide Spelling, Proper;
    if ws == [] {
      assert lead + "" == lead && "" + lead == lead;
      TrailingIs("", lead);
    } else {
      var w, gap := ws[|ws| - 1].0, ws[|ws| - 1].1;
      var front := lead + ListSpelling(ws[..|ws| - 1]);
      BeforeLast(lead, ws);
      SpellingEnds(w);
      hide ListSpelling;
      var x := front + Spelling(w);
      Assoc(front, Spelling(w), gap);
      TrailingIs(x, gap);
      assert x[|x| - 1] == Spelling(w)[|Spelling(w)| - 1];
      assert x[|x| - 2] == if |Spelling(w)| >= 2 then Spelling(w)[|Spelling(w)| - 2] else front[|front| - 1];
      assert EndsWithSlash(x + gap) == (x[|x| - 1] == '/' && IsSpace(x[|x| - 2])) by {
        assert (x + gap)[|x| - 1] == x[|x| - 1] && (x + gap)[|x| - 2] == x[|x| - 2];
      }
      SlashOfSpelling(w);
    }
  }

  lemma SlashOfSpelling(w: Written)
    requires Proper(w)
    ensures w.Junk? ==> Spelling(w) == w.text
    ensures w.Junk? && |w.text| == 1 ==> (w.text[0] == '/' <==> w.text == "/")
    ensures w.Assigned? && w.quoting == NoQuotes && w.value == "/" ==> Spelling(w)[|Spelling(w)| - 1] == '/'
  {
    if w.Assigned? {
      AssignedEnds(w);
    }
  }

  // ----- attributes that are kept -----

  lemma {:induction false} StrippedMarkup(attrs: seq<Attr>, rules: map<string, AttrRule>)
    requires forall a | a in attrs :: NoAngles(a.whole)
    ensures StripAngles(Markup(AllowedOf(attrs, rules))) == Kept(attrs, rules)
  {
    if attrs != [] {
      hide AllowedAttr;
      var a, kept := attrs[0], AllowedOf(attrs[1..], rules);
      assert a in attrs;
      StrippedMarkup(attrs[1..], rules);
      if AllowedAttr(a, rules) {
        assert ([a] + kept)[1..] == kept;
        assert NoAngles(" " + a.whole);
        StripAnglesConcat(" " + a.whole, Markup(kept));
        NothingToStrip(" " + a.whole);
      } else {
        assert [] + kept == kept && "" + Kept(attrs[1..], rules) == Kept(attrs[1..], rules);
      }
    }
  }

  lemma {:induction false} NothingToStrip(s: string)
    requires NoAngles(s)
    ensures StripAngles(s) == s
  {
    if s != "" {
      assert s[0] in s && NoAngles(s[1..]);
      NothingToStrip(s[1..]);
      assert s == [s[0]] + s[1..];
    }
  }

  lemma {:induction false} NoneWithoutRules(attrs: seq<Attr>, rules: map<string, AttrRule>)
    requires |rules| == 0
    ensures Kept(attrs, rules) == ""
  {
    if attrs != [] {
      assert rules == map[];
      NoneWithoutRules(attrs[1..], rules);
    }
  }

  lemma ValueHasNoAngles(value: string, protocols: seq<string>)
    requires NoAngles(value) && NoBrackets(protocols)
    ensures NoAngles(BadProtocol(value, protocols))
  {
    BadProtocolAddsNone(value, protocols, '<');
    BadProtocolAddsNone(value, protocols, '>');
  }

  lemma PartsOfSpelling(w: Written)
    requires w.Assigned? && NoAngles(Spelling(w))
    ensures NoAngles(w.name) && NoAngles(w.value)
  {
    var q := InQuotes(w.value, w.quoting);
    assert forall c :: c in w.value ==> c in q;
    assert forall c :: c in q ==> c in w.right + q;
    assert forall c :: c in q ==> c in w.left + ("=" + (w.right + q));
    hide InQuotes;
    assert forall c :: c in q || c in w.name ==> c in Spelling(w);
  }

  lemma RecordHasNoAngles(w: Written, protocols: seq<string>)
    requires NoAngles(Spelling(w)) && NoBrackets(protocols)
    ensures forall a | a in Record(w, protocols) :: NoAngles(a.whole)
  {
    match w {
      case Assigned(name, _, _, value, quoting) =>
        PartsOfSpelling(w);
        ValueHasNoAngles(value, protocols);
        hide BadProtocol, Spelling, NoBrackets;
        WholeHasNoAngles(name, BadProtocol(value, protocols));
      case _ =>
        hide NoBrackets;
    }
  }

  lemma WholeHasNoAngles(name: string, v: string)
    requires NoAngles(name) && NoAngles(v)
    ensures NoAngles(name + ("='" + v + "'")) && NoAngles(name + ("=\"" + v + "\""))
  {
    assert forall c :: c in "='" + v + "'" ==> c in v || c == '=' || c == '\'';
    assert forall c :: c in "=\"" + v + "\"" ==> c in v || c == '=' || c == '"';
  }

  lemma {:induction false} RecordsHaveNoAngles(ws: List, protocols: seq<string>)
    requires NoAngles(ListSpelling(ws)) && NoBrackets(protocols)
    ensures forall a | a in Records(ws, protocols) :: NoAngles(a.whole)
  {
    hide Spelling, Record, NoBrackets;
    if ws != [] {
      var tail := ws[0].1 + ListSpelling(ws[1..]);
      assert forall c :: c in tail ==> c in ListSpelling(ws);
      assert forall c :: c in Spelling(ws[0].0) ==> c in ListSpelling(ws);
      assert forall c :: c in ListSpelling(ws[1..]) ==> c in tail;
      RecordHasNoAngles(ws[0].0, protocols);
      RecordsHaveNoAngles(ws[1..], protocols);
    }
  }

  lemma OpeningIsShown(p: Piece, allowed: AllowList, protocols: seq<string>)
    requires p.Opening? && ProperPiece(p) && NoBrackets(protocols) && Lower(p.element) in allowed
    ensures Show(OpeningTag(p.element, p.lead + ListSpelling(p.attrs), allowed, protocols)) == Outcome(p, true, allowed, protocols)
  {
    var rules := allowed[Lower(p.element)];
    var records := Records(p.attrs, protocols);
    WrittenIsParsed(p.lead, p.attrs, protocols);
    SlashIsFound(p.lead, p.attrs);
    ListHasNoAngles(p);
    RecordsHaveNoAngles(p.attrs, protocols);
    StrippedMarkup(records, rules);
    hide *;
    if |rules| == 0 {
      NoneWithoutRules(records, rules);
    }
    TagIsShown(p, rules, allowed, protocols);
    var kept, slash := Kept(records, rules), if EndsInSlash(p.attrs) then " /" else "";
    ShownInARow(p.element, kept, slash);
    OutcomeOfOpening(p, allowed, protocols);
  }

  lemma ListHasNoAngles(p: Piece)
    requires p.Opening? && NoAngles(Inner(p))
    ensures NoAngles(ListSpelling(p.attrs))
  {
    hide ListSpelling;
    var rest := p.lead + ListSpelling(p.attrs);
    assert forall c :: c in ListSpelling(p.attrs) ==> c in rest;
    assert forall c :: c in rest ==> c in p.element + rest;
    assert forall c :: c in p.element + rest ==> c in Inner(p);
  }

  lemma TagIsShown(p: Piece, rules: map<string, AttrRule>, allowed: AllowList, protocols: seq<string>)
    requires p.Opening? && Lower(p.element) in allowed && rules == allowed[Lower(p.element)]
    requires Hair(p.lead + ListSpelling(p.attrs), protocols) == Records(p.attrs, protocols)
    requires EndsWithSlash(p.lead + ListSpelling(p.attrs)) == EndsInSlash(p.attrs)
    requires StripAngles(Markup(AllowedOf(Records(p.attrs, protocols), rules))) == Kept(Records(p.attrs, protocols), rules)
    requires |rules| == 0 ==> Kept(Records(p.attrs, protocols), rules) == ""
    ensures Show(OpeningTag(p.element, p.lead + ListSpelling(p.attrs), allowed, protocols))
      == "<" + (p.element + (Kept(Records(p.attrs, protocols), rules) + if EndsInSlash(p.attrs) then " /" else "")) + ">"
  {
    NothingInMarkup();
    hide Hair, ListSpelling, Records, EndsWithSlash, EndsInSlash, StripAngles, Markup, AllowedOf, Kept, Lower;
    var t := p.element + (Kept(Records(p.attrs, protocols), rules) + if EndsInSlash(p.attrs) then " /" else "");
    assert "" + t == t;
  }

  lemma NothingInMarkup()
    ensures StripAngles(Markup([])) == ""
  {}

  lemma ShownInARow(element: string, kept: string, slash: string)
    ensures "<" + (element + (kept + slash)) + ">" == "<" + (element + (kept + (slash + ">")))
  {
    Assoc("<", element + (kept + slash), ">");
    Assoc(element, kept + slash, ">");
    Assoc(kept, slash, ">");
  }

  lemma OutcomeOfOpening(p: Piece, allowed: AllowList, protocols: seq<string>)
    requires p.Opening? && Lower(p.element) in allowed
    ensures Outcome(p, true, allowed, protocols)
      == "<" + (p.element + (Kept(Records(p.attrs, protocols), allowed[Lower(p.element)])
           + ((if EndsInSlash(p.attrs) then " /" else "") + ">")))
  {
    hide Kept, Records, EndsInSlash, Lower;
  }

  // ----- one piece of markup -----

  lemma {:induction false} EscapeLeaves(s: string)
    requires NoAngles(s)
    ensures Escape(s) == s
  {
    if s != "" {
      assert s[0] in s && NoAngles(s[1..]);
      EscapeLeaves(s[1..]);
      assert s == [s[0]] + s[1..];
    }
  }

  lemma {:induction false} EscapeConcat(a: string, b: string)
    ensures Escape(a + b) == Escape(a) + Escape(b)
  {
    if a == "" {
      assert a + b == b && "" + Escape(b) == Escape(b);
    } else {
      DropInLeft(a, b, 1);
      EscapeConcat(a[1..], b);
      Assoc(if a[0] == '<' then "&lt;" else if a[0] == '>' then "&gt;" else [a[0]], Escape(a[1..]), Escape(b));
    }
  }

  lemma TagIsEscaped(inner: string, closed: bool)
    requires NoAngles(inner)
    ensures Escape("<" + (inner + End(closed))) == "&lt;" + (inner + if closed then "&gt;" else "")
  {
    EscapeLeaves(inner);
    EscapeConcat(inner, End(closed));
    EscapeConcat("<", inner + End(closed));
    assert "<"[1..] == "" && ">"[1..] == "";
  }

  lemma TagIsFiltered(p: Piece, closed: bool, allowed: AllowList, protocols: seq<string>)
    requires IsTag(p) && ProperPiece(p) && NoBrackets(protocols)
    ensures Show(Split2("<" + (Inner(p) + End(closed)), allowed, protocols)) == Outcome(p, closed, allowed, protocols)
  {
    hide TagParts, OpeningTag, ListSpelling, Escape, NoBrackets;
    var s := "<" + (Inner(p) + End(closed));
    TagIsEscaped(Inner(p), closed);
    match p {
      case Opening(_, element, _, _) =>
        OpeningIsFound(p, closed);
        if Lower(element) in allowed {
          OpeningIsShown(p, allowed, protocols);
        }
      case Closing(_, _, element, _) =>
        ClosingIsFound(p, closed);
        ClosingIsShown(element);
      case Nonsense(_, _) => NothingIsFound(p, closed);
    }
    hide *;
    OutcomeByTag(p, s, closed, allowed, protocols);
  }

  lemma ClosingIsShown(element: string)
    ensures Show(Tag(true, element, [], false)) == "</" + (element + ">")
  {
    assert StripAngles(Markup([])) == "";
    assert element + ("" + "") == element;
    assert "<" + ("/" + element) + ">" == "</" + (element + ">");
  }

  lemma OutcomeByTag(p: Piece, s: string, closed: bool, allowed: AllowList, protocols: seq<string>)
    requires IsTag(p) && s != "" && s[0] == '<' && Escape(s) == Disarmed(p, closed)
    requires match p
      case Opening(_, element, lead, attrs) =>
        && TagParts(s) == KsesTags.Parts(false, element, lead + ListSpelling(attrs))
        && (Lower(element) in allowed ==>
              Show(OpeningTag(element, lead + ListSpelling(attrs), allowed, protocols)) == Outcome(p, true, allowed, protocols))
      case Closing(_, _, element, rest) =>
        && TagParts(s) == KsesTags.Parts(true, element, rest)
        && Show(Tag(true, element, [], false)) == "</" + (element + ">")
      case _ => TagParts(s).NoMatch?
    ensures Show(Split2(s, allowed, protocols)) == Outcome(p, closed, allowed, protocols)
  {
    hide TagParts, OpeningTag, ListSpelling, Escape, Records, Kept, EndsInSlash, Tail;
  }

  // ----- all of it -----

  lemma {:induction false} WordsStay(text: string, rest: string, allowed: AllowList, protocols: seq<string>)
    requires NoAngles(text)
    ensures SplitTags(text + rest, allowed, protocols) == text + SplitTags(rest, allowed, protocols)
    decreases |text|
  {
    hide Split2, Show;
    if text == "" {
      assert text + rest == rest && "" + SplitTags(rest, allowed, protocols) == SplitTags(rest, allowed, protocols);
    } else {
      assert text[0] in text && NoAngles(text[1..]);
      DropInLeft(text, rest, 1);
      WordsStay(text[1..], rest, allowed, protocols);
      assert text == [text[0]] + text[1..];
      Assoc([text[0]], text[1..], SplitTags(rest, allowed, protocols));
    }
  }

  lemma TagInFrontIsFiltered(p: Piece, rest: string, allowed: AllowList, protocols: seq<string>)
    requires IsTag(p) && ProperPiece(p) && NoBrackets(protocols)
    ensures SplitTags(Source(p) + rest, allowed, protocols)
      == Outcome(p, true, allowed, protocols) + SplitTags(rest, allowed, protocols)
  {
    TagIsFiltered(p, true, allowed, protocols);
    hide Split2, Show, Outcome;
    assert NoAngles(Inner(p));
    hide Inner, ProperPiece;
    var s := Source(p);
    var front := "<" + Inner(p);
    assert s + rest == front + (">" + rest) by {
      Assoc("<", Inner(p), ">");
      Assoc(front, ">", rest);
    }
    IndexExactly('>', front, ">" + rest);
    TakeInLeft(s, rest, |s|);
    DropInLeft(s, rest, |s|);
    assert s[..|s|] == s && s[|s|..] + rest == rest;
    assert TagLength(s + rest) == |s|;
  }

  lemma BracketIsFiltered(rest: string, allowed: AllowList, protocols: seq<string>)
    ensures SplitTags(">" + rest, allowed, protocols) == "&gt;" + SplitTags(rest, allowed, protocols)
  {
    assert (">" + rest)[..1] == ">" && (">" + rest)[1..] == rest;
  }

  /** Whatever is written, and however, each piece comes out as it should: text stays, a lone
      bracket and a tag that is not allowed are shown as text, nonsense disappears, an
      allowed closing tag is reduced to its name, and an allowed opening tag keeps the
      attributes that are allowed, in order and quoted, and its slash. */
  lemma {:induction false} MarkupIsFiltered(ps: seq<Piece>, rest: string, allowed: AllowList, protocols: seq<string>)
    requires NoBrackets(protocols) && forall p | p in ps :: ProperPiece(p)
    ensures SplitTags(AllSource(ps) + rest, allowed, protocols)
      == AllOutcome(ps, allowed, protocols) + SplitTags(rest, allowed, protocols)
    decreases |ps|
  {
    hide SplitTags, ProperPiece;
    if ps == [] {
      assert "" + rest == rest && "" + SplitTags(rest, allowed, protocols) == SplitTags(rest, allowed, protocols);
    } else {
      var p, later := ps[0], AllSource(ps[1..]) + rest;
      MarkupIsFiltered(ps[1..], rest, allowed, protocols);
      assert p in ps;
      PieceIsFiltered(p, later, allowed, protocols);
      hide Source, Outcome;
      Assoc(Source(p), AllSource(ps[1..]), rest);
      Assoc(Outcome(p, true, allowed, protocols), AllOutcome(ps[1..], allowed, protocols), SplitTags(rest, allowed, protocols));
    }
  }

  lemma PieceIsFiltered(p: Piece, rest: string, allowed: AllowList, protocols: seq<string>)
    requires NoBrackets(protocols) && ProperPiece(p)
    ensures SplitTags(Source(p) + rest, allowed, protocols)
      == Outcome(p, true, allowed, protocols) + SplitTags(rest, allowed, protocols)
  {
    hide SplitTags;
    match p {
      case Words(text) => WordsStay(text, rest, allowed, protocols);
      case Bracket => BracketIsFiltered(rest, allowed, protocols);
      case _ => TagInFrontIsFiltered(p, rest, allowed, protocols);
    }
  }

  /** The last tag may lack its closing bracket; an allowed one is given it. */
  lemma UnclosedIsFiltered(ps: seq<Piece>, p: Piece, allowed: AllowList, protocols: seq<string>)
    requires NoBrackets(protocols) && (forall x | x in ps :: ProperPiece(x)) && IsTag(p) && ProperPiece(p)
    ensures SplitTags(AllSource(ps) + ("<" + Inner(p)), allowed, protocols)
      == AllOutcome(ps, allowed, protocols) + Outcome(p, false, allowed, protocols)
  {
    hide SplitTags, Outcome, ProperPiece, Inner;
    LastTagIsFiltered(p, allowed, protocols);
    MarkupIsFiltered(ps, "<" + Inner(p), allowed, protocols);
  }

  lemma LastTagIsFiltered(p: Piece, allowed: AllowList, protocols: seq<string>)
    requires NoBrackets(protocols) && IsTag(p) && ProperPiece(p)
    ensures SplitTags("<" + Inner(p), allowed, protocols) == Outcome(p, false, allowed, protocols)
  {
    var s := "<" + Inner(p);
    TagIsFiltered(p, false, allowed, protocols);
    assert '>' !in s && s + "" == s by {
      assert NoAngles(Inner(p));
    }
    assert "<" + (Inner(p) + End(false)) == s by {
      assert Inner(p) + "" == Inner(p);
    }
    hide Outcome, Inner, ProperPiece;
    UnclosedTag(s, allowed, protocols);
  }

  lemma UnclosedTag(s: string, allowed: AllowList, protocols: seq<string>)
    requires s != "" && s[0] == '<' && '>' !in s
    ensures SplitTags(s, allowed, protocols) == Show(Split2(s, allowed, protocols))
  {
    hide Split2, Show, IndexOf;
    NotFound(s);
    assert TagLength(s) == |s| && s[..|s|] == s && s[|s|..] == "";
    assert SplitTags("", allowed, protocols) == "";
    assert Show(Split2(s, allowed, protocols)) + "" == Show(Split2(s, allowed, protocols));
  }

  // ----- clean markup -----

  // An attribute as the filter itself writes it.
  predicate CleanAttribute(w: Written, rules: map<string, AttrRule>, protocols: seq<string>) {
    match w
    case Flag(name) => AllowedAttr(Attr(name, "", name, true), rules)
    case Assigned(name, left, right, value, quoting) =>
      && left == right == "" && quoting != NoQuotes && BadProtocol(value, protocols) == value
      && (forall a | a in Record(w, protocols) :: AllowedAttr(a, rules))
    case _ => false
  }

  /** Attributes one space apart, and perhaps a slash. */
  predicate CleanList(ws: List, rules: map<string, AttrRule>, protocols: seq<string>) {
    forall i :: 0 <= i < |ws| ==>
      && ws[i].1 == (if i + 1 < |ws| then " " else "")
      && (CleanAttribute(ws[i].0, rules, protocols) || (i + 1 == |ws| && ws[i].0 == Junk("/")))
  }

  /** Text without brackets, and tags as the filter itself writes them. */
  predicate Clean(p: Piece, allowed: AllowList, protocols: seq<string>) {
    match p
    case Words(_) => true
    case Opening(blank, element, lead, attrs) =>
      && blank == "" && lead == (if attrs == [] then "" else " ") && Lower(element) in allowed
      && CleanList(attrs, allowed[Lower(element)], protocols)
    case Closing(blank, gap, element, rest) => blank == gap == rest == "" && Lower(element) in allowed
    case _ => false
  }

  lemma CleanRecord(w: Written, rules: map<string, AttrRule>, protocols: seq<string>)
    requires CleanAttribute(w, rules, protocols)
    ensures Kept(Record(w, protocols), rules) == " " + Spelling(w)
  {
    hide BadProtocol, AllowedAttr;
    var r := Record(w, protocols);
    assert r[0] in r && r[1..] == [];
    assert " " + r[0].whole + "" == " " + r[0].whole;
    if w.Assigned? {
      var q := InQuotes(w.value, w.quoting);
      assert "" + ("=" + ("" + q)) == "=" + q;
      assert "='" + w.value + "'" == "=" + ("'" + (w.value + "'"));
      assert "=\"" + w.value + "\"" == "=" + ("\"" + (w.value + "\""));
    }
  }

  lemma {:induction false} KeptConcat(a: seq<Attr>, b: seq<Attr>, rules: map<string, AttrRule>)
    ensures Kept(a + b, rules) == Kept(a, rules) + Kept(b, rules)
  {
    hide AllowedAttr;
    if a == [] {
      assert a + b == b && "" + Kept(b, rules) == Kept(b, rules);
    } else {
      DropInLeft(a, b, 1);
      KeptConcat(a[1..], b, rules);
      Assoc(if AllowedAttr(a[0], rules) then " " + a[0].whole else "", Kept(a[1..], rules), Kept(b, rules));
    }
  }

  lemma {:induction false} CleanListIsKept(ws: List, rules: map<string, AttrRule>, protocols: seq<string>)
    requires CleanList(ws, rules, protocols) && ws != []
    ensures Kept(Records(ws, protocols), rules) + (if EndsInSlash(ws) then " /" else "") == " " + ListSpelling(ws)
    decreases |ws|
  {
    hide CleanAttribute, Record, Spelling, AllowedAttr, Kept, Records, EndsInSlash, ListSpelling;
    if |ws| == 1 {
      OneIsKept(ws, rules, protocols);
    } else {
      assert forall i :: 0 <= i < |ws| - 1 ==> ws[1..][i] == ws[i + 1];
      CleanListIsKept(ws[1..], rules, protocols);
      assert CleanAttribute(ws[0].0, rules, protocols) && ws[0].1 == " ";
      FirstIsKept(ws, rules, protocols);
    }
  }

  lemma OneIsKept(ws: List, rules: map<string, AttrRule>, protocols: seq<string>)
    requires CleanList(ws, rules, protocols) && |ws| == 1
    ensures Kept(Records(ws, protocols), rules) + (if EndsInSlash(ws) then " /" else "") == " " + ListSpelling(ws)
  {
    hide CleanAttribute, Record, Spelling, AllowedAttr, Kept;
    var w := ws[0].0;
    ListSpellingOfOne(ws[0]);
    assert ws == [ws[0]] && ws[1..] == [];
    assert Record(w, protocols) + [] == Record(w, protocols);
    if w == Junk("/") {
      SlashAlone(protocols, rules);
    } else {
      CleanRecord(w, rules, protocols);
      CleanEnds(w, rules, protocols);
    }
  }

  lemma FirstIsKept(ws: List, rules: map<string, AttrRule>, protocols: seq<string>)
    requires |ws| >= 2 && CleanAttribute(ws[0].0, rules, protocols) && ws[0].1 == " "
    requires Kept(Records(ws[1..], protocols), rules) + (if EndsInSlash(ws[1..]) then " /" else "") == " " + ListSpelling(ws[1..])
    ensures Kept(Records(ws, protocols), rules) + (if EndsInSlash(ws) then " /" else "") == " " + ListSpelling(ws)
  {
    hide CleanAttribute, Record, Spelling, AllowedAttr, Kept;
    var w, kept := ws[0].0, Kept(Records(ws[1..], protocols), rules);
    CleanRecord(w, rules, protocols);
    KeptConcat(Record(w, protocols), Records(ws[1..], protocols), rules);
    assert ws[1..][|ws| - 2] == ws[|ws| - 1];
    assert EndsInSlash(ws) == EndsInSlash(ws[1..]);
    hide EndsInSlash;
    Assoc(" " + Spelling(w), kept, if EndsInSlash(ws) then " /" else "");
    Assoc(" ", Spelling(w), " " + ListSpelling(ws[1..]));
  }

  lemma SlashAlone(protocols: seq<string>, rules: map<string, AttrRule>)
    ensures !CleanAttribute(Junk("/"), rules, protocols)
    ensures Record(Junk("/"), protocols) == [] && Spelling(Junk("/")) == "/" && Kept([], rules) == ""
  {}

  lemma CleanEnds(w: Written, rules: map<string, AttrRule>, protocols: seq<string>)
    requires CleanAttribute(w, rules, protocols)
    ensures !w.Junk? && (w.Assigned? ==> w.quoting != NoQuotes)
  {}

  lemma CleanPieceIsKept(p: Piece, allowed: AllowList, protocols: seq<string>)
    requires Clean(p, allowed, protocols)
    ensures Outcome(p, true, allowed, protocols) == Source(p)
  {
    hide CleanList, Kept, Records, EndsInSlash, ListSpelling, AllowedAttr;
    match p {
      case Opening(_, element, lead, attrs) =>
        if attrs == [] {
          EmptyList(protocols, allowed[Lower(element)]);
        } else {
          CleanListIsKept(attrs, allowed[Lower(element)], protocols);
        }
        var kept, slash := Kept(Records(attrs, protocols), allowed[Lower(element)]), if EndsInSlash(attrs) then " /" else "";
        Assoc(kept, slash, ">");
        Assoc(element, kept + slash, ">");
        assert "" + (element + (lead + ListSpelling(attrs))) == element + (lead + ListSpelling(attrs));
      case Closing(_, _, element, _) =>
        assert Inner(p) == "/" + element;
        assert "<" + (("/" + element) + ">") == "</" + (element + ">");
      case _ =>
    }
  }

  lemma EmptyList(protocols: seq<string>, rules: map<string, AttrRule>)
    ensures Kept(Records([], protocols), rules) == "" && !EndsInSlash([]) && ListSpelling([]) == ""
  {}

  lemma {:induction false} AllCleanIsKept(ps: seq<Piece>, allowed: AllowList, protocols: seq<string>)
    requires forall p | p in ps :: Clean(p, allowed, protocols)
    ensures AllOutcome(ps, allowed, protocols) == AllSource(ps)
  {
    hide Clean, Outcome, Source;
    if ps != [] {
      CleanPieceIsKept(ps[0], allowed, protocols);
      AllCleanIsKept(ps[1..], allowed, protocols);
    }
  }

  /** Clean markup is left alone: text and allowed tags, with allowed attributes whose
      values kses_bad_protocol leaves alone. */
  lemma CleanMarkupIsKept(ps: seq<Piece>, allowed: AllowList, protocols: seq<string>)
    requires NoBrackets(protocols) && forall p | p in ps :: ProperPiece(p) && Clean(p, allowed, protocols)
    ensures SplitTags(AllSource(ps), allowed, protocols) == AllSource(ps)
  {
    hide Clean, ProperPiece, SplitTags;
    MarkupIsFiltered(ps, "", allowed, protocols);
    AllCleanIsKept(ps, allowed, protocols);
    assert AllSource(ps) + "" == AllSource(ps);
    assert SplitTags("", allowed, protocols) == "" by {
      NothingToSplit(allowed, protocols);
    }
  }

  lemma NothingToSplit(allowed: AllowList, protocols: seq<string>)
    ensures SplitTags("", allowed, protocols) == ""
  {}
}
