/**
 Attributes as people write them (licqweb/kses.php:188-310, 457-465): flags, values in
 double quotes, in apostrophes or in none, white space around the equals sign, and
 text that is no attribute, or spoils one. kses_hair reads each of them as it was meant.
 */
module KsesWritten {
  import opened Sequences
  import opened KsesEntities
  import opened KsesProtocol
  import opened KsesHair

  datatype Quoting = DoubleQuotes | Apostrophes | NoQuotes

  datatype Written =
    | Flag(name: string)
    | Assigned(name: string, left: string, right: string, value: string, quoting: Quoting)
    | Junk(text: string)
    | Spoiled(name: string, left: string, right: string, chunks: seq<Chunk>)

  // Text in quotes, in which white space may stand, or text without.
  datatype Chunk = Quote(q: char, text: string) | Loose(text: string)

  predicate Blank(s: string) {
    forall i :: 0 <= i < |s| ==> IsSpace(s[i])
  }

  predicate Unspaced(s: string) {
    s != "" && forall i :: 0 <= i < |s| ==> !IsSpace(s[i]) && s[i] != '"' && s[i] != '\''
  }

  /** What can be written: a value does not contain its quotes, and without quotes neither
      white space nor quotes; what is no attribute does not look like one. A value is
      spoiled by text that touches its quotes. */
  predicate Proper(w: Written) {
    match w
    case Flag(name) => IsName(name)
    case Assigned(name, left, right, value, quoting) =>
      && IsName(name) && Blank(left) && Blank(right)
      && (match quoting
          case DoubleQuotes => '"' !in value
          case Apostrophes => '\'' !in value
          case NoQuotes => Unspaced(value))
    case Junk(text) => Unspaced(text) && text[0] != '-' && !IsLetter(text[0]) && text[0] != '='
    case Spoiled(name, left, right, chunks) =>
      && IsName(name) && Blank(left) && Blank(right) && |chunks| >= 2
      && (chunks[0].Quote? || chunks[1].Quote?) && forall i :: 0 <= i < |chunks| ==> ProperChunk(chunks[i])
  }

  predicate ProperChunk(c: Chunk) {
    match c
    case Quote(q, text) => (q == '"' || q == '\'') && q !in text
    case Loose(text) => Unspaced(text)
  }

  function ChunkText(c: Chunk): (s: string) {
    match c
    case Quote(q, text) => [q] + (text + [q])
    case Loose(text) => text
  }

  function Chunks(cs: seq<Chunk>): (s: string) {
    if cs == [] then "" else ChunkText(cs[0]) + Chunks(cs[1..])
  }

  function InQuotes(value: string, quoting: Quoting): (s: string) {
    match quoting
    case DoubleQuotes => "\"" + (value + "\"")
    case Apostrophes => "'" + (value + "'")
    case NoQuotes => value
  }

  function Spelling(w: Written): (s: string) {
    match w
    case Flag(name) => name
    case Assigned(name, left, right, value, quoting) => name + (left + ("=" + (right + InQuotes(value, quoting))))
    case Junk(text) => text
    case Spoiled(name, left, right, chunks) => name + (left + ("=" + (right + Chunks(chunks))))
  }

  // Each item with the white space behind it.
  type List = seq<(Written, string)>

  predicate ProperList(ws: List) {
    forall i :: 0 <= i < |ws| ==> Proper(ws[i].0) && Blank(ws[i].1) && (i + 1 < |ws| ==> ws[i].1 != "")
  }

  function ListSpelling(ws: List): (s: string) {
    if ws == [] then "" else Spelling(ws[0].0) + (ws[0].1 + ListSpelling(ws[1..]))
  }

  /** The records that should be read: values filtered, and without quotes put into double ones. */
  function Record(w: Written, protocols: seq<string>): (r: seq<Attr>) {
    match w
    case Flag(name) => [Attr(name, "", name, true)]
    case Assigned(name, _, _, value, quoting) =>
      var v := BadProtocol(value, protocols);
      [Attr(name, v, name + (if quoting == Apostrophes then "='" + v + "'" else "=\"" + v + "\""), false)]
    case Junk(_) => []
    case Spoiled(_, _, _, _) => []
  }

  function Records(ws: List, protocols: seq<string>): (r: seq<Attr>) {
    if ws == [] then [] else Record(ws[0].0, protocols) + Records(ws[1..], protocols)
  }

  // ----- what follows an item -----

  // White space, and then nothing or the next item.
  predicate Follows(gap: string, next: string) {
    && Blank(gap) && (gap == "" ==> next == "")
    && (next != "" ==> !IsSpace(next[0]) && next[0] != '=')
  }

  lemma GapIsSpanned(gap: string, next: string)
    requires Blank(gap) && (next != "" ==> !IsSpace(next[0]))
    ensures Span(Space, gap + next) == |gap| && (gap + next)[|gap|..] == next
  {
    SpanExactly(Space, gap, next);
  }

  lemma GapIsNoAssignment(gap: string, next: string)
    requires Follows(gap, next)
    ensures Equals(gap + next) == 0
  {
    GapIsSpanned(gap, next);
    assert next != "" ==> (gap + next)[|gap|] == next[0];
    hide Span;
  }

  lemma ItemClosed(text: string, gap: string, next: string)
    requires text != "" && Follows(gap, next)
    ensures Closed(text + (gap + next), |text|) == |text| + |gap|
    ensures (text + (gap + next))[|text| + |gap|..] == next
  {
    GapIsSpanned(gap, next);
    assert (text + (gap + next))[|text|..] == gap + next;
    Assoc(text, gap, next);
    hide Span;
  }

  // ----- values -----

  lemma QuotedIsRead(q: char, value: string, gap: string, next: string)
    requires (q == '"' || q == '\'') && q !in value && Follows(gap, next)
    ensures var s := ([q] + (value + [q])) + (gap + next);
      && ValueAt(s) == Literal(value, q, |value| + 2 + |gap|) && s[|value| + 2 + |gap|..] == next
  {
    var text := [q] + (value + [q]);
    var s := text + (gap + next);
    ItemClosed(text, gap, next);
    QuotesAreFound(q, value, gap + next);
    hide Span, IndexOf, Closed, Follows;
    assert Quoted(q, s) == |value| + 2 + |gap|;
  }

  lemma QuotesAreFound(q: char, value: string, rest: string)
    requires q !in value
    ensures var s := ([q] + (value + [q])) + rest;
      s[0] == q && IndexOf(q, s[1..]) == |value| && s[1..1 + |value|] == value && |s| >= |value| + 2
  {
    var s := ([q] + (value + [q])) + rest;
    assert s[1..] == value + ([q] + rest);
    IndexExactly(q, value, [q] + rest);
    assert s[1..1 + |value|] == value;
  }

  lemma UnquotedIsRead(value: string, gap: string, next: string)
    requires Unspaced(value) && Follows(gap, next)
    ensures var s := value + (gap + next);
      && ValueAt(s) == Literal(value, '"', |value| + |gap|) && s[|value| + |gap|..] == next
  {
    var s := value + (gap + next);
    ItemClosed(value, gap, next);
    assert gap != "" ==> (gap + next)[0] == gap[0];
    SpanExactly(Bare, value, gap + next);
    assert s[0] == value[0] && s[..|value|] == value;
    hide Span, Closed;
  }

  lemma ValueIsRead(value: string, quoting: Quoting, gap: string, next: string)
    requires Proper(Assigned("a", "", "", value, quoting)) && Follows(gap, next)
    ensures var text := InQuotes(value, quoting);
      var s := text + (gap + next);
      && ValueAt(s) == Literal(value, if quoting == Apostrophes then '\'' else '"', |text| + |gap|)
      && s[|text| + |gap|..] == next && text != "" && !IsSpace(text[0])
  {
    match quoting {
      case DoubleQuotes => QuotedIsRead('"', value, gap, next);
      case Apostrophes => QuotedIsRead('\'', value, gap, next);
      case NoQuotes => UnquotedIsRead(value, gap, next);
    }
  }

  // ----- items -----

  lemma FlagIsRead(name: string, gap: string, next: string, before: string, protocols: seq<string>)
    requires IsName(name) && Follows(gap, next)
    ensures Parse(name + (gap + next), WantName, before, protocols)
      == [Attr(name, "", name, true)] + Parse(next, WantName, name, protocols)
  {
    assert gap != "" ==> (gap + next)[0] == gap[0];
    NameIsParsed(name, gap + next, before, protocols);
    GapIsSpanned(gap, next);
    GapIsNoAssignment(gap, next);
    hide Span, Equals;
  }

  lemma EqualsIsRead(left: string, right: string, s: string)
    requires Blank(left) && Blank(right) && s != "" && !IsSpace(s[0])
    ensures var t := left + ("=" + (right + s));
      Equals(t) == |left| + 1 + |right| && t[|left| + 1 + |right|..] == s
  {
    var t := left + ("=" + (right + s));
    GapIsSpanned(left, "=" + (right + s));
    GapIsSpanned(right, s);
    assert t[|left|] == '=' && t[|left| + 1..] == right + s;
    hide Span;
  }

  lemma AssignedIsRead(w: Written, gap: string, next: string, before: string, protocols: seq<string>)
    requires w.Assigned? && Proper(w) && Follows(gap, next)
    ensures Parse(Spelling(w) + (gap + next), WantName, before, protocols)
      == Record(w, protocols) + Parse(next, WantName, w.name, protocols)
  {
    AssignedShape(w);
    hide *;
    var text := InQuotes(w.value, w.quoting);
    var s := text + (gap + next);
    ValueIsRead(w.value, w.quoting, gap, next);
    FrontIsRead(w.name, w.left, w.right, s, before, protocols);
    ValueBehindIsRead(w, gap, next, protocols);
    SpellingOfAssigned(w);
    AssignedInARow(w.name, w.left, w.right, text, gap + next);
  }

  lemma FrontIsRead(name: string, left: string, right: string, s: string, before: string, protocols: seq<string>)
    requires IsName(name) && Blank(left) && Blank(right) && s != "" && !IsSpace(s[0])
    ensures Parse(name + (left + ("=" + (right + s))), WantName, before, protocols) == Parse(s, WantValue, name, protocols)
  {
    hide *;
    var t := left + ("=" + (right + s));
    NameBeforeEquals(left, right + s);
    NameIsParsed(name, t, before, protocols);
    EqualsIsRead(left, right, s);
    ValueOfName(t, s, name, protocols);
  }

  lemma ValueBehindIsRead(w: Written, gap: string, next: string, protocols: seq<string>)
    requires w.Assigned? && Proper(Assigned("a", "", "", w.value, w.quoting)) && Follows(gap, next)
    ensures Parse(InQuotes(w.value, w.quoting) + (gap + next), WantValue, w.name, protocols)
      == Record(w, protocols) + Parse(next, WantName, w.name, protocols)
  {
    hide *;
    var text, q := InQuotes(w.value, w.quoting), if w.quoting == Apostrophes then '\'' else '"';
    ValueIsRead(w.value, w.quoting, gap, next);
    ValueIsTaken(text + (gap + next), w.value, q, |text| + |gap|, w.name, protocols);
    RecordIsWhole(w, protocols);
  }

  lemma AssignedShape(w: Written)
    requires w.Assigned? && Proper(w)
    ensures IsName(w.name) && Blank(w.left) && Blank(w.right) && Proper(Assigned("a", "", "", w.value, w.quoting))
  {
    assert IsName("a");
  }

  lemma SpellingOfAssigned(w: Written)
    requires w.Assigned?
    ensures Spelling(w) == w.name + (w.left + ("=" + (w.right + InQuotes(w.value, w.quoting))))
  {}

  lemma ValueOfName(t: string, s: string, name: string, protocols: seq<string>)
    requires Equals(t) > 0 && t[Equals(t)..] == s
    ensures Parse(t, AfterName, name, protocols) == Parse(s, WantValue, name, protocols)
  {
    hide Equals;
  }

  lemma ValueIsTaken(s: string, value: string, q: char, n: nat, name: string, protocols: seq<string>)
    requires 0 < n <= |s| && ValueAt(s) == Literal(value, q, n)
    ensures Parse(s, WantValue, name, protocols)
      == [Valued(name, BadProtocol(value, protocols), q)] + Parse(s[n..], WantName, name, protocols)
  {
    hide ValueAt, BadProtocol;
  }

  lemma AssignedInARow(name: string, left: string, right: string, text: string, rest: string)
    ensures (name + (left + ("=" + (right + text)))) + rest == name + (left + ("=" + (right + (text + rest))))
  {
    Assoc(name, left + ("=" + (right + text)), rest);
    Assoc(left, "=" + (right + text), rest);
    Assoc("=", right + text, rest);
    Assoc(right, text, rest);
  }

  lemma NameBeforeEquals(left: string, rest: string)
    requires Blank(left)
    ensures var t := left + ("=" + rest); t != "" && !OfKind(NameChar, t[0])
  {}

  lemma RecordIsWhole(w: Written, protocols: seq<string>)
    requires w.Assigned?
    ensures Record(w, protocols)
      == [Valued(w.name, BadProtocol(w.value, protocols), if w.quoting == Apostrophes then '\'' else '"')]
  {
    hide BadProtocol;
    var v := BadProtocol(w.value, protocols);
    if w.quoting == Apostrophes {
      WholeIs(w.name, v, '\'');
      assert ['='] + ['\''] == "='" && ['\''] == "'";
    } else {
      WholeIs(w.name, v, '"');
      assert ['='] + ['"'] == "=\"" && ['"'] == "\"";
    }
  }

  lemma WholeIs(name: string, v: string, q: char)
    ensures name + "=" + [q] + v + [q] == name + ((['='] + [q]) + v + [q])
  {
    Assoc(name, "=", [q]);
    Assoc(name, "=" + [q], v);
    Assoc(name, ("=" + [q]) + v, [q]);
  }

  lemma {:induction false} LooseIsPassed(text: string, rest: string)
    requires text == "" || Unspaced(text)
    ensures Garbage(text + rest) == |text| + Garbage(rest)
    decreases |text|
  {
    if text == "" {
      assert text + rest == rest;
    } else {
      DropInLeft(text, rest, 1);
      LooseIsPassed(text[1..], rest);
    }
  }

  lemma JunkIsSkipped(text: string, gap: string, next: string, before: string, protocols: seq<string>)
    requires Proper(Junk(text)) && Follows(gap, next)
    ensures Parse(text + (gap + next), WantName, before, protocols) == Parse(next, WantName, before, protocols)
  {
    var s := text + (gap + next);
    assert gap != "" ==> (gap + next)[0] == gap[0];
    LooseIsPassed(text, gap + next);
    assert Garbage(gap + next) == 0;
    GapIsSpanned(gap, next);
    assert s[0] == text[0] && s[|text|..] == gap + next;
    assert Span(NameChar, s) == 0;
    Assoc(text, gap, next);
    assert s[|text| + |gap|..] == next;
    hide Span, Garbage;
    assert ErrorLength(s) == |text| + |gap|;
  }

  // ----- spoiled values -----

  lemma QuoteIsPassed(q: char, text: string, rest: string)
    requires (q == '"' || q == '\'') && q !in text
    ensures Garbage(([q] + (text + [q])) + rest) == |text| + 2 + Garbage(rest)
  {
    var s := ([q] + (text + [q])) + rest;
    QuotesAreFound(q, text, rest);
    assert s[|text| + 2..] == rest && |s| == |text| + 2 + |rest|;
    hide IndexOf;
  }

  lemma {:induction false} ChunksArePassed(cs: seq<Chunk>, rest: string)
    requires (forall i :: 0 <= i < |cs| ==> ProperChunk(cs[i])) && (rest == "" || IsSpace(rest[0]))
    ensures Garbage(Chunks(cs) + rest) == |Chunks(cs)|
  {
    if cs == [] {
      assert "" + rest == rest;
    } else {
      hide Garbage;
      Assoc(ChunkText(cs[0]), Chunks(cs[1..]), rest);
      ChunksArePassed(cs[1..], rest);
      match cs[0] {
        case Quote(q, text) => QuoteIsPassed(q, text, Chunks(cs[1..]) + rest);
        case Loose(text) => LooseIsPassed(text, Chunks(cs[1..]) + rest);
      }
    }
  }

  // Behind the first chunk stands neither white space nor the end.
  lemma NotAValue(first: Chunk, t: string)
    requires ProperChunk(first) && t != "" && !IsSpace(t[0])
    requires first.Loose? ==> t[0] == '"' || t[0] == '\''
    ensures ValueAt(ChunkText(first) + t).Malformed?
  {
    var s := ChunkText(first) + t;
    match first {
      case Quote(q, text) =>
        QuotesAreFound(q, text, t);
        assert s[|text| + 2..] == t;
        assert Closed(s, |text| + 2) == 0;
        assert Span(Bare, s) == 0;
        hide IndexOf, Span, Closed;
      case Loose(text) =>
        SpanExactly(Bare, text, t);
        assert s[|text|..] == t;
        assert Closed(s, |text|) == 0;
        assert s[0] == text[0];
        hide IndexOf, Span, Closed;
    }
  }

  lemma ChunkStarts(c: Chunk)
    requires ProperChunk(c)
    ensures var s := ChunkText(c); s != "" && !IsSpace(s[0]) && (c.Quote? ==> s[0] == c.q)
  {}

  lemma SpoiledIsMalformed(cs: seq<Chunk>, rest: string)
    requires |cs| >= 2 && (cs[0].Quote? || cs[1].Quote?) && forall i :: 0 <= i < |cs| ==> ProperChunk(cs[i])
    ensures var s := Chunks(cs) + rest; s != "" && !IsSpace(s[0]) && ValueAt(s).Malformed?
  {
    var t := ChunkText(cs[1]) + (Chunks(cs[2..]) + rest);
    assert cs[1..][1..] == cs[2..];
    Assoc(ChunkText(cs[0]), Chunks(cs[1..]), rest);
    Assoc(ChunkText(cs[1]), Chunks(cs[2..]), rest);
    ChunkStarts(cs[0]);
    ChunkStarts(cs[1]);
    hide ChunkText, ValueAt;
    assert t[0] == ChunkText(cs[1])[0];
    NotAValue(cs[0], t);
  }

  lemma SpoiledIsSkipped(w: Written, gap: string, next: string, before: string, protocols: seq<string>)
    requires w.Spoiled? && Proper(w) && Follows(gap, next)
    ensures Parse(Spelling(w) + (gap + next), WantName, before, protocols) == Parse(next, WantName, w.name, protocols)
  {
    hide Span, Equals, ValueAt, Garbage, ErrorLength, Chunks, Parse;
    var s := Chunks(w.chunks) + (gap + next);
    assert gap != "" ==> (gap + next)[0] == gap[0];
    SpoiledIsMalformed(w.chunks, gap + next);
    ChunksArePassed(w.chunks, gap + next);
    AssignedInARow(w.name, w.left, w.right, Chunks(w.chunks), gap + next);
    FrontIsRead(w.name, w.left, w.right, s, before, protocols);
    ErrorIsSkipped(s, |Chunks(w.chunks)|, gap, next, w.name, protocols);
  }

  lemma ErrorIsSkipped(s: string, n: nat, gap: string, next: string, name: string, protocols: seq<string>)
    requires n <= |s| && s != "" && s[n..] == gap + next && Garbage(s) == n && ValueAt(s).Malformed? && Follows(gap, next)
    ensures Parse(s, WantValue, name, protocols) == Parse(next, WantName, name, protocols)
  {
    GapIsSpanned(gap, next);
    DropTwice(s, n, |gap|);
    hide Span, Garbage, ValueAt;
    assert ErrorLength(s) == n + |gap|;
  }

  lemma ItemIsRead(w: Written, gap: string, next: string, before: string, protocols: seq<string>)
      returns (after: string)
    requires Proper(w) && Follows(gap, next)
    ensures Parse(Spelling(w) + (gap + next), WantName, before, protocols)
      == Record(w, protocols) + Parse(next, WantName, after, protocols)
  {
    match w {
      case Flag(name) =>
        FlagIsRead(name, gap, next, before, protocols);
        after := name;
      case Assigned(name, _, _, _, _) =>
        AssignedIsRead(w, gap, next, before, protocols);
        after := name;
      case Junk(text) =>
        JunkIsSkipped(text, gap, next, before, protocols);
        after := before;
        assert [] + Parse(next, WantName, after, protocols) == Parse(next, WantName, after, protocols);
      case Spoiled(name, _, _, _) =>
        SpoiledIsSkipped(w, gap, next, before, protocols);
        after := name;
        assert [] + Parse(next, WantName, after, protocols) == Parse(next, WantName, after, protocols);
    }
  }

  lemma SpellingStarts(w: Written)
    requires Proper(w)
    ensures var s := Spelling(w); s != "" && !IsSpace(s[0]) && s[0] != '=' && (!w.Junk? ==> OfKind(NameChar, s[0]))
  {}

  lemma ListFollows(ws: List)
    requires ProperList(ws) && ws != []
    ensures Follows(ws[0].1, ListSpelling(ws[1..])) && ProperList(ws[1..])
  {
    assert forall i :: 0 <= i < |ws| - 1 ==> ws[1..][i] == ws[i + 1];
    if |ws| > 1 {
      SpellingStarts(ws[1].0);
    }
    hide Proper, Spelling;
  }

  lemma {:induction false} ListIsRead(ws: List, before: string, protocols: seq<string>)
    requires ProperList(ws)
    ensures Parse(ListSpelling(ws), WantName, before, protocols) == Records(ws, protocols)
    decreases |ws|
  {
    hide Proper, Spelling, Record, Follows;
    if ws != [] {
      ListFollows(ws);
      hide ProperList;
      var after := ItemIsRead(ws[0].0, ws[0].1, ListSpelling(ws[1..]), before, protocols);
      ListIsRead(ws[1..], after, protocols);
    }
  }

  lemma LeadIsSkipped(lead: string, s: string, before: string, protocols: seq<string>)
    requires Blank(lead) && (s != "" ==> !IsSpace(s[0]))
    ensures Parse(lead + s, WantName, before, protocols) == Parse(s, WantName, before, protocols)
  {
    if lead == "" {
      assert lead + s == s;
    } else {
      GapIsSpanned(lead, s);
      var t := lead + s;
      assert t[0] == lead[0];
      assert Garbage(t) == 0 && t[0..] == t;
      assert Span(NameChar, t) == 0;
      hide Span, Garbage;
      assert ErrorLength(t) == |lead|;
    }
  }

  /** kses_hair reads every list of attributes, however it is written, as it was meant. */
  lemma WrittenIsParsed(lead: string, ws: List, protocols: seq<string>)
    requires Blank(lead) && ProperList(ws)
    ensures Hair(lead + ListSpelling(ws), protocols) == Records(ws, protocols)
  {
    if ws != [] {
      SpellingStarts(ws[0].0);
    }
    LeadIsSkipped(lead, ListSpelling(ws), "", protocols);
    ListIsRead(ws, "", protocols);
  }
}
