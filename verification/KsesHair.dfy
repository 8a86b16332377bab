/**
 kses_hair (licqweb/kses.php:188-310, 457-465): the attribute parser, a loop over
 the rest of an attribute string with a mode, and kses_html_error to get past
 what is not well formed.
 */
module KsesHair {
  import opened Sequences
  import opened KsesEntities
  import opened KsesProtocol

  datatype Attr = Attr(name: string, value: string, whole: string, vless: bool)

  datatype Mode = WantName | AfterName | WantValue

  // ----- patterns -----

  datatype Kind = NameChar | Space | Bare

  predicate OfKind(k: Kind, c: char) {
    match k
    case NameChar => c == '-' || IsLetter(c)
    case Space => IsSpace(c)
    case Bare => !IsSpace(c) && c != '"' && c != '\''
  }

  function Span(k: Kind, s: string): (n: nat)
    ensures n <= |s| && (forall i :: 0 <= i < n ==> OfKind(k, s[i])) && (n < |s| ==> !OfKind(k, s[n]))
  {
    if s == "" || !OfKind(k, s[0]) then 0 else 1 + Span(k, s[1..])
  }

  // ^\s*=\s*
  function Equals(s: string): (n: nat)
    ensures n <= |s|
  {
    var n := Span(Space, s);
    if n < |s| && s[n] == '=' then n + 1 + Span(Space, s[n + 1..]) else 0
  }

  // The first occurrence of q in s, or |s|.
  function IndexOf(q: char, s: string): (n: nat)
    ensures n <= |s| && (n < |s| ==> s[n] == q) && (forall i :: 0 <= i < n ==> s[i] != q)
  {
    if s == "" || s[0] == q then 0 else 1 + IndexOf(q, s[1..])
  }

  // (\s+|$) behind the first n characters: how far it reaches, or 0.
  function Closed(s: string, n: nat): (m: nat)
    requires 0 < n <= |s|
    ensures m == 0 || n <= m <= |s|
  {
    if n == |s| || Span(Space, s[n..]) > 0 then n + Span(Space, s[n..]) else 0
  }

  // ^q([^q]*)q(\s+|$)
  function Quoted(q: char, s: string): (n: nat)
    ensures n <= |s| && (n > 0 ==> s[0] == q && 1 + IndexOf(q, s[1..]) < n)
  {
    if s == "" || s[0] != q then 0
    else
      var e := 1 + IndexOf(q, s[1..]);
      if e == |s| then 0 else Closed(s, e + 1)
  }

  // ^([^\s"']+)(\s+|$)
  function Unquoted(s: string): (n: nat)
    ensures n <= |s| && (n > 0 ==> 0 < Span(Bare, s) <= n)
  {
    var n := Span(Bare, s);
    if n == 0 then 0 else Closed(s, n)
  }

  // ("[^"]*("|$)|'[^']*('|$)|\S)*
  function Garbage(s: string): (n: nat)
    ensures n <= |s| && (s != "" && !IsSpace(s[0]) ==> n > 0)
  {
    if s == "" || IsSpace(s[0]) then 0
    else if s[0] == '"' || s[0] == '\'' then
      var e := 1 + IndexOf(s[0], s[1..]);
      if e == |s| then e else e + 1 + Garbage(s[e + 1..])
    else 1 + Garbage(s[1..])
  }

  // What kses_html_error removes.
  function ErrorLength(s: string): (n: nat)
    ensures n <= |s| && (s != "" ==> n > 0)
  {
    Garbage(s) + Span(Space, s[Garbage(s)..])
  }

  // ----- the parser -----

  function Valueless(name: string): Attr {
    Attr(name, "", name, true)
  }

  function Valued(name: string, value: string, q: char): Attr {
    Attr(name, value, name + "=" + [q] + value + [q], false)
  }

  // The quoting, the text and the length of an attribute value at the head of s.
  datatype Literal = Malformed | Literal(text: string, quote: char, used: nat)

  function ValueAt(s: string): (v: Literal)
    ensures v.Literal? ==> 0 < v.used <= |s| && v.quote !in v.text && (v.quote == '"' || v.quote == '\'')
  {
    if Quoted('"', s) > 0 then Literal(s[1..1 + IndexOf('"', s[1..])], '"', Quoted('"', s))
    else if Quoted('\'', s) > 0 then Literal(s[1..1 + IndexOf('\'', s[1..])], '\'', Quoted('\'', s))
    else if Unquoted(s) > 0 then Literal(s[..Span(Bare, s)], '"', Unquoted(s))
    else Malformed
  }

  /** The attributes kses_hair gets out of the rest of a string, from a mode on. */
  function Parse(s: string, mode: Mode, name: string, allowed: seq<string>): (r: seq<Attr>)
    decreases |s|
  {
    if s == "" then if mode == AfterName then [Valueless(name)] else []
    else
      match mode
      case WantName =>
        var n := Span(NameChar, s);
        if n > 0 then Parse(s[n..], AfterName, s[..n], allowed)
        else Parse(s[ErrorLength(s)..], WantName, name, allowed)
      case AfterName =>
        if Equals(s) > 0 then Parse(s[Equals(s)..], WantValue, name, allowed)
        else if Span(Space, s) > 0 then
          [Valueless(name)] + Parse(s[Span(Space, s)..], WantName, name, allowed)
        else Parse(s[ErrorLength(s)..], WantName, name, allowed)
      case WantValue =>
        var v := ValueAt(s);
        if v.Literal? then
          [Valued(name, BadProtocol(v.text, allowed), v.quote)] + Parse(s[v.used..], WantName, name, allowed)
        else Parse(s[ErrorLength(s)..], WantName, name, allowed)
  }

  function Hair(s: string, allowed: seq<string>): (r: seq<Attr>) {
    Parse(s, WantName, "", allowed)
  }

  /** kses_hair: every round of the loop shortens the string. */
  method ParseAttributes(input: string, allowed: seq<string>) returns (attrarr: seq<Attr>)
    ensures attrarr == Hair(input, allowed)
  {
    attrarr := [];
    var attr, mode, attrname := input, WantName, "";
    while attr != ""
      invariant attrarr + Parse(attr, mode, attrname, allowed) == Hair(input, allowed)
      decreases |attr|
    {
      var working := false;
      match mode {
        case WantName =>
          var n := Span(NameChar, attr);
          if n > 0 {
            attrname, mode, working := attr[..n], AfterName, true;
            attr := attr[n..];
          }
        case AfterName =>
          if Equals(attr) > 0 {
            attr, mode, working := attr[Equals(attr)..], WantValue, true;
          } else if Span(Space, attr) > 0 {
            Assoc(attrarr, [Valueless(attrname)], Parse(attr[Span(Space, attr)..], WantName, attrname, allowed));
            attrarr := attrarr + [Valueless(attrname)];
            attr, mode, working := attr[Span(Space, attr)..], WantName, true;
          }
        case WantValue =>
          var v := ValueAt(attr);
          if v.Literal? {
            var thisval := RemoveBadProtocol(v.text, allowed);
            Assoc(attrarr, [Valued(attrname, thisval, v.quote)], Parse(attr[v.used..], WantName, attrname, allowed));
            attrarr := attrarr + [Valued(attrname, thisval, v.quote)];
            attr, mode, working := attr[v.used..], WantName, true;
          }
      }
      if !working {
        attr, mode := attr[ErrorLength(attr)..], WantName;
      }
    }
    if mode == AfterName {
      attrarr := attrarr + [Valueless(attrname)];
    }
  }

  // ----- what the parser produces -----

  predicate IsName(s: string) {
    s != "" && forall i :: 0 <= i < |s| ==> OfKind(NameChar, s[i])
  }

  /** A record that is its own markup: a bare name, or a name and a quoted value
      that does not contain its quote. */
  predicate WellFormed(a: Attr) {
    && IsName(a.name)
    && (a == Valueless(a.name)
        || (a == Valued(a.name, a.value, '"') && '"' !in a.value)
        || (a == Valued(a.name, a.value, '\'') && '\'' !in a.value))
  }

  // No protocol of a white list holds the character.
  predicate HoldsNo(allowed: seq<string>, q: char) {
    forall i :: 0 <= i < |allowed| ==> q !in allowed[i]
  }

  predicate QuoteFree(allowed: seq<string>) {
    HoldsNo(allowed, '"') && HoldsNo(allowed, '\'')
  }

  lemma {:induction false} StripInside(f: Filter, s: string)
    ensures forall c | c in Strip(f, s) :: c in s
  {
    if s != "" {
      StripInside(f, s[1..]);
    }
  }

  lemma {:induction false} StripBackslashZeroInside(s: string)
    ensures forall c | c in StripBackslashZero(s) :: c in s
    decreases |s|
  {
    if s != "" {
      StripBackslashZeroInside(s[1..]);
      if |s| >= 2 {
        StripBackslashZeroInside(s[2..]);
      }
    }
  }

  // Neither lowering the case of a protocol nor its colon brings this character in.
  predicate NotInProtocols(q: char) {
    !('a' <= q <= 'z') && q != ':'
  }

  lemma LowerAddsOnlyLetters(s: string, q: char)
    requires NotInProtocols(q)
    ensures q in Lower(s) ==> q in s
  {}

  lemma ReplacementAddsNone(w: string, allowed: seq<string>, q: char)
    requires NotInProtocols(q) && HoldsNo(allowed, q)
    ensures q !in Replacement(w, allowed)
  {
    hide Canonical, Lower;
    if Whitelisted(Canonical(w), allowed) {
      var i :| 0 <= i < |allowed| && Lower(allowed[i]) == Canonical(w);
      LowerAddsOnlyLetters(allowed[i], q);
    }
  }

  lemma OnceAddsNone(s: string, allowed: seq<string>, q: char)
    requires NotInProtocols(q)
    requires HoldsNo(allowed, q) && q !in s
    ensures q !in Once(s, allowed)
  {
    if Find(s).None? {
      OnceKeeps(s, allowed);
    } else {
      hide *;
      var g, c := Find(s).group, Find(s).colon;
      OnceReplaces(s, allowed);
      ReplacedByParts(s, g, c, allowed);
      ReplacementAddsNone(s[..g], allowed, q);
      assert forall x :: x in SkipSpaces(s[g + c..]) ==> x in s;
    }
  }

  lemma OnceKeeps(s: string, allowed: seq<string>)
    requires Find(s).None?
    ensures Once(s, allowed) == s
  {
    hide Find;
  }

  lemma {:induction false} UntilAddsNone(s: string, allowed: seq<string>, q: char)
    requires NotInProtocols(q)
    requires HoldsNo(allowed, q) && q !in s
    ensures q !in Until(s, allowed)
    decreases |s|, Uppers(s)
  {
    hide Once;
    OnceShrinks(s, allowed);
    OnceAddsNone(s, allowed, q);
    if Once(s, allowed) != s {
      UntilAddsNone(Once(s, allowed), allowed, q);
    }
  }

  lemma BadProtocolAddsNone(s: string, allowed: seq<string>, q: char)
    requires NotInProtocols(q)
    requires HoldsNo(allowed, q) && q !in s
    ensures q !in BadProtocol(s, allowed)
  {
    StripInside(NotNul, s);
    StripBackslashZeroInside(Strip(NotNul, s));
    StripInside(NotSoftHyphen, NoNull(s));
    UntilAddsNone(Cleaned(s), allowed, q);
  }

  lemma {:induction false} ParseIsWellFormed(s: string, mode: Mode, name: string, allowed: seq<string>)
    requires QuoteFree(allowed) && (mode != WantName ==> IsName(name))
    ensures forall a | a in Parse(s, mode, name, allowed) :: WellFormed(a) && Once(a.value, allowed) == a.value
    decreases |s|
  {
    hide ValueAt, ErrorLength, Equals, BadProtocol, Once, Span;
    if s == "" {
      NothingToReplace(allowed);
    } else {
      match mode {
        case WantName =>
          var n := Span(NameChar, s);
          if n > 0 {
            ParseIsWellFormed(s[n..], AfterName, s[..n], allowed);
          } else {
            ParseIsWellFormed(s[ErrorLength(s)..], WantName, name, allowed);
          }
        case AfterName =>
          NothingToReplace(allowed);
          if Equals(s) > 0 {
            ParseIsWellFormed(s[Equals(s)..], WantValue, name, allowed);
          } else if Span(Space, s) > 0 {
            ParseIsWellFormed(s[Span(Space, s)..], WantName, name, allowed);
          } else {
            ParseIsWellFormed(s[ErrorLength(s)..], WantName, name, allowed);
          }
        case WantValue =>
          var v := ValueAt(s);
          if v.Literal? {
            BadProtocolAddsNone(v.text, allowed, v.quote);
            ParseIsWellFormed(s[v.used..], WantName, name, allowed);
          } else {
            ParseIsWellFormed(s[ErrorLength(s)..], WantName, name, allowed);
          }
      }
    }
  }

  lemma NothingToReplace(allowed: seq<string>)
    ensures Once("", allowed) == ""
  {}

  // ----- printing and parsing again -----

  /** The markup of the records, separated by spaces. */
  function Printed(attrs: seq<Attr>): (s: string) {
    if attrs == [] then ""
    else if |attrs| == 1 then attrs[0].whole
    else attrs[0].whole + " " + Printed(attrs[1..])
  }

  // A record as it comes back: its value is filtered once more.
  function Filtered(a: Attr, allowed: seq<string>): (b: Attr) {
    if a.vless then a
    else Valued(a.name, BadProtocol(a.value, allowed), if a == Valued(a.name, a.value, '"') then '"' else '\'')
  }

  function AllFiltered(attrs: seq<Attr>, allowed: seq<string>): (r: seq<Attr>) {
    if attrs == [] then [] else [Filtered(attrs[0], allowed)] + AllFiltered(attrs[1..], allowed)
  }

  // What follows a printed record: nothing, or a space and the next one's name.
  predicate Separator(tail: string) {
    tail == "" || (|tail| >= 2 && tail[0] == ' ' && OfKind(NameChar, tail[1]))
  }

  lemma SpanExactly(k: Kind, w: string, tail: string)
    requires (forall i :: 0 <= i < |w| ==> OfKind(k, w[i])) && (tail == "" || !OfKind(k, tail[0]))
    ensures Span(k, w + tail) == |w|
  {
    assert forall i :: 0 <= i < |w| ==> (w + tail)[i] == w[i];
    assert tail != "" ==> (w + tail)[|w|] == tail[0];
  }

  lemma IndexExactly(q: char, w: string, tail: string)
    requires q !in w && tail != "" && tail[0] == q
    ensures IndexOf(q, w + tail) == |w|
  {
    assert forall i :: 0 <= i < |w| ==> (w + tail)[i] == w[i];
    assert (w + tail)[|w|] == q;
    assert forall i :: 0 <= i < |w| ==> w[i] != q;
  }

  lemma SeparatorSpaces(tail: string)
    requires Separator(tail)
    ensures Span(Space, tail) == if tail == "" then 0 else 1
    ensures Equals(tail) == 0
  {
    if tail != "" {
      assert tail == " " + tail[1..];
      SpanExactly(Space, " ", tail[1..]);
    }
  }

  // Past the separator.
  function Beyond(tail: string): string {
    if tail == "" then "" else tail[1..]
  }

  lemma NameIsParsed(name: string, tail: string, before: string, allowed: seq<string>)
    requires IsName(name) && (tail == "" || !OfKind(NameChar, tail[0]))
    ensures Parse(name + tail, WantName, before, allowed) == Parse(tail, AfterName, name, allowed)
  {
    SpanExactly(NameChar, name, tail);
    TakeInLeft(name, tail, |name|);
    DropInLeft(name, tail, |name|);
    assert name[..|name|] == name && name[|name|..] + tail == tail;
    hide Span;
  }

  lemma ValuelessIsParsed(name: string, tail: string, before: string, allowed: seq<string>)
    requires IsName(name) && Separator(tail)
    ensures Parse(name + tail, WantName, before, allowed)
      == [Valueless(name)] + Parse(Beyond(tail), WantName, name, allowed)
  {
    NameIsParsed(name, tail, before, allowed);
    SeparatorSpaces(tail);
    hide Span, Equals;
  }

  lemma QuotedIsFound(value: string, q: char, tail: string)
    requires (q == '"' || q == '\'') && q !in value && Separator(tail)
    ensures var s := [q] + (value + ([q] + tail));
      && ValueAt(s) == Literal(value, q, |value| + 2 + |tail| - |Beyond(tail)|)
      && s[|value| + 2 + |tail| - |Beyond(tail)|..] == Beyond(tail)
  {
    var rest := value + ([q] + tail);
    var s := [q] + rest;
    assert s[1..] == rest;
    IndexExactly(q, value, [q] + tail);
    SeparatorSpaces(tail);
    assert s[|value| + 2..] == tail;
    assert s[1..1 + |value|] == value;
    hide Span, IndexOf;
    assert Closed(s, |value| + 2) == |value| + 2 + |tail| - |Beyond(tail)|;
    assert Quoted(q, s) == |value| + 2 + |tail| - |Beyond(tail)|;
  }

  lemma EqualsIsParsed(name: string, s: string, allowed: seq<string>)
    requires s != "" && !IsSpace(s[0])
    ensures Parse("=" + s, AfterName, name, allowed) == Parse(s, WantValue, name, allowed)
  {
    var t := "=" + s;
    assert t[0] == '=' && t[1..] == s;
    assert Span(Space, t) == 0 && Span(Space, s) == 0;
    assert Equals(t) == 1;
  }

  lemma ValuedIsParsed(name: string, value: string, q: char, tail: string, before: string, allowed: seq<string>)
    requires IsName(name) && (q == '"' || q == '\'') && q !in value && Separator(tail)
    ensures Parse(Valued(name, value, q).whole + tail, WantName, before, allowed)
      == [Valued(name, BadProtocol(value, allowed), q)] + Parse(Beyond(tail), WantName, name, allowed)
  {
    hide Span, Equals, ValueAt, BadProtocol, ErrorLength;
    var s := [q] + (value + ([q] + tail));
    WholeInARow(name, value, q, tail);
    NameIsParsed(name, "=" + s, before, allowed);
    EqualsIsParsed(name, s, allowed);
    QuotedIsFound(value, q, tail);
  }

  lemma WholeInARow(name: string, value: string, q: char, tail: string)
    ensures Valued(name, value, q).whole + tail == name + ("=" + ([q] + (value + ([q] + tail))))
  {
    Assoc(name + "=" + [q] + value, [q], tail);
    Assoc(name + "=" + [q], value, [q] + tail);
    Assoc(name + "=", [q], value + ([q] + tail));
    Assoc(name, "=", [q] + (value + ([q] + tail)));
  }

  predicate AllWellFormed(attrs: seq<Attr>) {
    forall a | a in attrs :: WellFormed(a)
  }

  lemma RecordIsParsed(a: Attr, tail: string, before: string, allowed: seq<string>)
    requires WellFormed(a) && Separator(tail)
    ensures Parse(a.whole + tail, WantName, before, allowed)
      == [Filtered(a, allowed)] + Parse(Beyond(tail), WantName, a.name, allowed)
  {
    if a == Valueless(a.name) {
      ValuelessIsParsed(a.name, tail, before, allowed);
    } else {
      assert Valued(a.name, a.value, '"').whole[|a.name| + 1] == '"';
      assert Valued(a.name, a.value, '\'').whole[|a.name| + 1] == '\'';
      var q := if a == Valued(a.name, a.value, '"') then '"' else '\'';
      ValuedIsParsed(a.name, a.value, q, tail, before, allowed);
    }
  }

  lemma PrintedStartsWithName(attrs: seq<Attr>)
    requires attrs != [] && WellFormed(attrs[0])
    ensures Printed(attrs) != "" && OfKind(NameChar, Printed(attrs)[0])
  {
    assert attrs[0].whole[0] == attrs[0].name[0];
  }

  lemma {:induction false} PrintedIsParsed(attrs: seq<Attr>, before: string, allowed: seq<string>)
    requires AllWellFormed(attrs)
    ensures Parse(Printed(attrs), WantName, before, allowed) == AllFiltered(attrs, allowed)
    decreases |attrs|
  {
    hide Filtered, WellFormed;
    if attrs != [] {
      assert attrs[0] in attrs;
      var tail := if |attrs| == 1 then "" else " " + Printed(attrs[1..]);
      if |attrs| > 1 {
        assert attrs[1] in attrs;
        PrintedStartsWithName(attrs[1..]);
        assert tail[1] == Printed(attrs[1..])[0];
        Assoc(attrs[0].whole, " ", Printed(attrs[1..]));
      } else {
        assert attrs[0].whole + "" == attrs[0].whole;
        assert attrs[1..] == [];
      }
      RecordIsParsed(attrs[0], tail, before, allowed);
      PrintedIsParsed(attrs[1..], attrs[0].name, allowed);
    }
  }

  lemma FilteredIsSame(a: Attr, allowed: seq<string>)
    requires WellFormed(a) && Once(a.value, allowed) == a.value
    ensures Filtered(a, allowed) == a <==> FreeOfNulls(a.value)
  {
    hide BadProtocol, Once, FreeOfNulls, ProtocolIsFine;
    UnchangedIff(a.value, allowed);
    FixpointIffFine(a.value, allowed);
    if a == Valueless(a.name) {
      EmptyIsFree();
    }
  }

  lemma EmptyIsFree()
    ensures FreeOfNulls("")
  {}

  lemma {:induction false} AllFilteredAreSame(attrs: seq<Attr>, allowed: seq<string>)
    requires AllWellFormed(attrs) && forall a | a in attrs :: Once(a.value, allowed) == a.value
    ensures AllFiltered(attrs, allowed) == attrs <==> forall a | a in attrs :: FreeOfNulls(a.value)
    decreases |attrs|
  {
    hide Filtered, WellFormed, Once, FreeOfNulls;
    if attrs != [] {
      var head, tail := attrs[0], attrs[1..];
      assert head in attrs && forall a :: a in tail ==> a in attrs;
      FilteredIsSame(head, allowed);
      AllFilteredAreSame(tail, allowed);
      ConsIsSame(Filtered(head, allowed), AllFiltered(tail, allowed), attrs);
      assert forall a :: a in attrs ==> a == head || a in tail;
    }
  }

  lemma ConsIsSame<T>(x: T, xs: seq<T>, s: seq<T>)
    requires s != []
    ensures [x] + xs == s <==> x == s[0] && xs == s[1..]
  {
    assert ([x] + xs)[0] == x && ([x] + xs)[1..] == xs;
    assert s == [s[0]] + s[1..];
  }

  /** What kses_hair gets out of any string parses back to itself when it is
      printed, exactly when its values hold no NUL, no soft hyphen and no
      backslash-zero pair; then every value is its own kses_bad_protocol. */
  lemma ReparseGivesTheSame(s: string, allowed: seq<string>)
    requires QuoteFree(allowed)
    ensures Hair(Printed(Hair(s, allowed)), allowed) == Hair(s, allowed)
      <==> forall a | a in Hair(s, allowed) :: FreeOfNulls(a.value)
  {
    hide Parse, WellFormed, Once, FreeOfNulls;
    var attrs := Hair(s, allowed);
    ParseIsWellFormed(s, WantName, "", allowed);
    PrintedIsParsed(attrs, "", allowed);
    AllFilteredAreSame(attrs, allowed);
  }
}
