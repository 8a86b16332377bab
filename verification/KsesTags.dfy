/**
 kses_split, kses_split2, kses_attr and kses_check_attr_val (licqweb/kses.php:
 70-185, 313-376): find everything that looks like a tag, keep the allowed
 elements with their allowed attributes, and disarm the rest. The allow-list
 has lower-case keys, as kses_array_lc leaves it.
 */
module KsesTags {
  import opened Sequences
  import opened KsesEntities
  import opened KsesProtocol
  import opened KsesHair

  datatype Check =
    | MaxLen(limit: nat)
    | MinLen(limit: nat)
    | MaxVal(limit: nat)
    | MinVal(limit: nat)
    | ValuelessCheck(flag: string)
    | UnknownCheck

  datatype AttrRule = NoChecks | Checks(checks: seq<Check>)

  type AllowList = map<string, map<string, AttrRule>>

  predicate NoAngles(s: string) {
    '<' !in s && '>' !in s
  }

  // ----- attribute values -----

  function TrailingSpaces(s: string): (n: nat)
    ensures n <= |s|
  {
    if s == "" || !IsSpace(s[|s| - 1]) then 0 else 1 + TrailingSpaces(s[..|s| - 1])
  }

  // ^\s{0,6}[0-9]{1,6}\s{0,6}$ with the digits at a, d of them; $ also stands before a final newline.
  predicate NumberAt(s: string, a: nat, d: nat) {
    && a + d <= |s| && a <= 6 && 1 <= d <= 6 && Span(Space, s[a + d..]) == |s| - a - d
    && (|s| - a - d <= 6 || (|s| - a - d == 7 && s[|s| - 1] == '\n'))
  }

  // Its digits.
  function SmallNumber(s: string): (g: string)
    ensures forall i :: 0 <= i < |g| ==> IsDigit(g[i])
  {
    var a := Span(Space, s);
    var d := Run(Digits, s[a..]);
    InsideRun(Digits, s[a..], 0);
    if NumberAt(s, a, d) then s[a..][0..d] else ""
  }

  /** kses_check_attr_val */
  predicate Passes(a: Attr, c: Check) {
    match c
    case MaxLen(limit) => |a.value| <= limit
    case MinLen(limit) => |a.value| >= limit
    case MaxVal(limit) => SmallNumber(a.value) != "" && Value(SmallNumber(a.value)) <= limit
    case MinVal(limit) => SmallNumber(a.value) != "" && Value(SmallNumber(a.value)) >= limit
    case ValuelessCheck(flag) => Lower(flag) == if a.vless then "y" else "n"
    case UnknownCheck => true
  }

  predicate AllowedAttr(a: Attr, rules: map<string, AttrRule>) {
    && Lower(a.name) in rules
    && (rules[Lower(a.name)].Checks? ==> forall c | c in rules[Lower(a.name)].checks :: Passes(a, c))
  }

  // ----- one element -----

  function StripAngles(s: string): (r: string)
    ensures NoAngles(r)
  {
    if s == "" then "" else (if s[0] == '<' || s[0] == '>' then "" else [s[0]]) + StripAngles(s[1..])
  }

  lemma {:induction false} StripAnglesConcat(a: string, b: string)
    ensures StripAngles(a + b) == StripAngles(a) + StripAngles(b)
  {
    if a == "" {
      assert a + b == b;
      assert "" + StripAngles(b) == StripAngles(b);
    } else {
      DropInLeft(a, b, 1);
      StripAnglesConcat(a[1..], b);
      Assoc(if a[0] == '<' || a[0] == '>' then "" else [a[0]], StripAngles(a[1..]), StripAngles(b));
    }
  }

  // \s/\s*$
  predicate EndsWithSlash(s: string) {
    var n := |s| - TrailingSpaces(s);
    n >= 2 && s[n - 1] == '/' && IsSpace(s[n - 2])
  }

  function AllowedOf(attrs: seq<Attr>, rules: map<string, AttrRule>): (r: seq<Attr>)
    ensures forall a | a in r :: a in attrs && AllowedAttr(a, rules)
  {
    if attrs == [] then []
    else (if AllowedAttr(attrs[0], rules) then [attrs[0]] else []) + AllowedOf(attrs[1..], rules)
  }

  // Each attribute behind a space.
  function Markup(attrs: seq<Attr>): (s: string) {
    if attrs == [] then "" else " " + attrs[0].whole + Markup(attrs[1..])
  }

  /** A piece of filtered output: text, or a tag of an element. */
  datatype Token =
    | Text(text: string)
    | Tag(closing: bool, element: string, attrs: seq<Attr>, slash: bool)

  function Show(t: Token): (s: string) {
    match t
    case Text(text) => text
    case Tag(closing, element, attrs, slash) =>
      "<" + ((if closing then "/" else "") + (element + Tail(attrs, slash))) + ">"
  }

  // The attributes of a tag, rid of brackets, and its closing slash.
  function Tail(attrs: seq<Attr>, slash: bool): (s: string)
    ensures NoAngles(s)
  {
    StripAngles(Markup(attrs)) + if slash then " /" else ""
  }

  /** kses_attr: the tag that is left of an allowed opening element. */
  function OpeningTag(element: string, attrlist: string, allowed: AllowList, protocols: seq<string>): (t: Token)
    requires Lower(element) in allowed
  {
    var rules := allowed[Lower(element)];
    Tag(false, element, if |rules| == 0 then [] else AllowedOf(Hair(attrlist, protocols), rules), EndsWithSlash(attrlist))
  }

  lemma {:induction false} AllowedOfPrefix(attrs: seq<Attr>, n: nat, rules: map<string, AttrRule>)
    requires n < |attrs|
    ensures AllowedOf(attrs[..n + 1], rules)
      == AllowedOf(attrs[..n], rules) + if AllowedAttr(attrs[n], rules) then [attrs[n]] else []
    decreases n
  {
    hide AllowedAttr;
    var more, fewer := attrs[..n + 1], attrs[..n];
    if n > 0 {
      AllowedOfPrefix(attrs[1..], n - 1, rules);
      assert more[1..] == attrs[1..][..n] && fewer[1..] == attrs[1..][..n - 1];
      Assoc(if AllowedAttr(attrs[0], rules) then [attrs[0]] else [], AllowedOf(fewer[1..], rules),
        if AllowedAttr(attrs[n], rules) then [attrs[n]] else []);
    } else {
      assert more[1..] == [] && fewer == [];
    }
  }

  lemma {:induction false} MarkupConcat(a: seq<Attr>, b: seq<Attr>)
    ensures Markup(a + b) == Markup(a) + Markup(b)
  {
    if a == [] {
      assert a + b == b;
      assert "" + Markup(b) == Markup(b);
    } else {
      DropInLeft(a, b, 1);
      MarkupConcat(a[1..], b);
      Assoc(" " + a[0].whole, Markup(a[1..]), Markup(b));
    }
  }

  /** kses_attr as its loops run. */
  method FilterElement(element: string, attrlist: string, allowed: AllowList, protocols: seq<string>)
    returns (markup: string)
    requires Lower(element) in allowed
    ensures markup == Show(OpeningTag(element, attrlist, allowed, protocols))
  {
    var xhtmlSlash := if EndsWithSlash(attrlist) then " /" else "";
    var rules := allowed[Lower(element)];
    if |rules| == 0 {
      assert StripAngles(Markup([])) == "";
      assert "" + xhtmlSlash == xhtmlSlash && "" + (element + xhtmlSlash) == element + xhtmlSlash;
      markup := "<" + (element + xhtmlSlash) + ">";
      return;
    }
    var attrarr := ParseAttributes(attrlist, protocols);
    var attr2 := "";
    var i := 0;
    while i < |attrarr|
      invariant 0 <= i <= |attrarr|
      invariant attr2 == Markup(AllowedOf(attrarr[..i], rules))
    {
      AllowedOfPrefix(attrarr, i, rules);
      var ok := CheckAttribute(attrarr[i], rules);
      MarkupConcat(AllowedOf(attrarr[..i], rules), if ok then [attrarr[i]] else []);
      OneMarkup(attrarr[i]);
      if ok {
        attr2 := attr2 + (" " + attrarr[i].whole);
      }
      i := i + 1;
    }
    assert attrarr[..i] == attrarr;
    assert "" + (element + (StripAngles(attr2) + xhtmlSlash)) == element + (StripAngles(attr2) + xhtmlSlash);
    markup := "<" + (element + (StripAngles(attr2) + xhtmlSlash)) + ">";
  }

  lemma OneMarkup(a: Attr)
    ensures Markup([a]) == " " + a.whole && Markup([]) == ""
  {
    assert [a][1..] == [];
  }

  method CheckAttribute(a: Attr, rules: map<string, AttrRule>) returns (ok: bool)
    ensures ok == AllowedAttr(a, rules)
  {
    if Lower(a.name) !in rules {
      return false;
    }
    var current := rules[Lower(a.name)];
    if current.NoChecks? {
      return true;
    }
    ok := true;
    var i := 0;
    while i < |current.checks|
      invariant 0 <= i <= |current.checks| && ok
      invariant forall c | c in current.checks[..i] :: Passes(a, c)
    {
      if !Passes(a, current.checks[i]) {
        return false;
      }
      i := i + 1;
    }
  }

  // ----- one thing that looks like a tag -----

  // str_replace of both brackets
  function Escape(s: string): (r: string)
    ensures NoAngles(r)
  {
    if s == "" then ""
    else (if s[0] == '<' then "&lt;" else if s[0] == '>' then "&gt;" else [s[0]]) + Escape(s[1..])
  }

  datatype Parts = NoMatch | Parts(closing: bool, element: string, attrlist: string)

  // ([a-zA-Z0-9]+)([^>]*)>?$
  function NameAndRest(s: string, closing: bool): (p: Parts)
    ensures p.Parts? ==> p.element != "" && forall i :: 0 <= i < |p.element| ==> In(Alnum, p.element[i])
  {
    var n := Run(Alnum, s);
    var e := n + IndexOf('>', s[n..]);
    if n == 0 || e + 1 < |s| then NoMatch else Parts(closing, s[..n], s[n..e])
  }

  // ^<\s*(/\s*)?([a-zA-Z0-9]+)([^>]*)>?$
  function TagParts(s: string): (p: Parts)
    requires s != ""
    ensures p.Parts? ==> p.element != "" && forall i :: 0 <= i < |p.element| ==> In(Alnum, p.element[i])
  {
    var b := s[1..][Span(Space, s[1..])..];
    if b != "" && b[0] == '/' then NameAndRest(b[1..][Span(Space, b[1..])..], true) else NameAndRest(b, false)
  }

  /** kses_split2 */
  function Split2(s: string, allowed: AllowList, protocols: seq<string>): (t: Token)
    requires s != ""
  {
    if s[0] != '<' then Text("&gt;")
    else
      match TagParts(s)
      case NoMatch => Text("")
      case Parts(closing, element, attrlist) =>
        if Lower(element) !in allowed then Text(Escape(s))
        else if closing then Tag(true, element, [], false)
        else OpeningTag(element, attrlist, allowed, protocols)
  }

  // ----- the whole string -----

  // (<[^>]*(>|$)|>) at the head of s: its length, or 0
  function TagLength(s: string): (n: nat)
    ensures n <= |s|
  {
    if s == "" then 0
    else if s[0] == '>' then 1
    else if s[0] == '<' then
      var e := IndexOf('>', s);
      if e < |s| then e + 1 else |s|
    else 0
  }

  /** kses_split */
  function SplitTags(s: string, allowed: AllowList, protocols: seq<string>): (r: string)
    decreases |s|
  {
    if s == "" then ""
    else if TagLength(s) > 0 then
      Show(Split2(s[..TagLength(s)], allowed, protocols)) + SplitTags(s[TagLength(s)..], allowed, protocols)
    else [s[0]] + SplitTags(s[1..], allowed, protocols)
  }

  // ----- what comes out -----

  /** Text has no angle brackets; a tag is of an allowed element, and carries only
      attributes its allow-list admits, parsed from input. */
  predicate Fine(t: Token, allowed: AllowList) {
    match t
    case Text(text) => NoAngles(text)
    case Tag(closing, element, attrs, slash) =>
      && Lower(element) in allowed && element != "" && (forall i :: 0 <= i < |element| ==> In(Alnum, element[i]))
      && (forall a | a in attrs :: AllowedAttr(a, allowed[Lower(element)]))
      && (closing ==> attrs == [] && !slash)
  }

  predicate AllFine(ts: seq<Token>, allowed: AllowList) {
    forall t | t in ts :: Fine(t, allowed)
  }

  function Shown(ts: seq<Token>): (s: string) {
    if ts == [] then "" else Show(ts[0]) + Shown(ts[1..])
  }

  lemma Split2IsFine(s: string, allowed: AllowList, protocols: seq<string>)
    requires s != ""
    ensures Fine(Split2(s, allowed, protocols), allowed)
  {
    hide Hair, Escape, AllowedOf;
  }

  /** The pieces of filtered output, in order. */
  function Tokens(s: string, allowed: AllowList, protocols: seq<string>): (ts: seq<Token>)
    decreases |s|
  {
    if s == "" then []
    else if TagLength(s) > 0 then
      [Split2(s[..TagLength(s)], allowed, protocols)] + Tokens(s[TagLength(s)..], allowed, protocols)
    else [Text([s[0]])] + Tokens(s[1..], allowed, protocols)
  }

  /** Filtered output is text without angle brackets interleaved with tags of allowed elements. */
  lemma {:induction false} TagStructure(s: string, allowed: AllowList, protocols: seq<string>)
    ensures SplitTags(s, allowed, protocols) == Shown(Tokens(s, allowed, protocols))
    ensures AllFine(Tokens(s, allowed, protocols), allowed)
    decreases |s|
  {
    hide Split2, Show, Fine;
    if s != "" {
      var n := TagLength(s);
      if n > 0 {
        Split2IsFine(s[..n], allowed, protocols);
        TagStructure(s[n..], allowed, protocols);
        ShownCons(Split2(s[..n], allowed, protocols), Tokens(s[n..], allowed, protocols));
      } else {
        TextIsFine(s[0], allowed);
        TagStructure(s[1..], allowed, protocols);
        ShownCons(Text([s[0]]), Tokens(s[1..], allowed, protocols));
      }
    }
  }

  lemma ShownCons(t: Token, ts: seq<Token>)
    ensures Shown([t] + ts) == Show(t) + Shown(ts)
  {
    assert ([t] + ts)[1..] == ts;
  }

  lemma TextIsFine(c: char, allowed: AllowList)
    requires c != '<' && c != '>'
    ensures Fine(Text([c]), allowed) && Show(Text([c])) == [c]
  {}

  /** With nothing allowed, nothing that looks like a tag is left. */
  lemma {:induction false} NothingAllowed(s: string, protocols: seq<string>)
    ensures NoAngles(SplitTags(s, map[], protocols))
  {
    TagStructure(s, map[], protocols);
    ShownText(Tokens(s, map[], protocols));
  }

  lemma {:induction false} ShownText(ts: seq<Token>)
    requires AllFine(ts, map[])
    ensures NoAngles(Shown(ts))
  {
    if ts != [] {
      assert Fine(ts[0], map[]);
      ShownText(ts[1..]);
    }
  }

  /** Between the brackets of a shown tag there are no others. */
  lemma TagIsClosed(t: Token, allowed: AllowList)
    requires t.Tag? && Fine(t, allowed)
    ensures var s := Show(t);
      |s| >= 2 && s[0] == '<' && s[|s| - 1] == '>' && NoAngles(s[1..|s| - 1])
  {
    var tail := Tail(t.attrs, t.slash);
    var inner := (if t.closing then "/" else "") + (t.element + tail);
    assert NoAngles(t.element) by {
      assert forall c | c in t.element :: In(Alnum, c);
    }
    hide Tail;
    var s := Show(t);
    assert s[1..|s| - 1] == inner;
  }

  // ----- checking output without knowing where it came from -----

  // The element name of a tag: behind the bracket and the slash of a closing tag.
  function ElementOf(tag: string): (e: string) {
    var b := if |tag| >= 2 && tag[1] == '/' then tag[2..] else if |tag| >= 1 then tag[1..] else "";
    b[..Run(Alnum, b)]
  }

  /** Every bracket of r belongs to a tag that is closed before the next one opens
      and whose element is allowed. */
  predicate OnlyAllowedTags(r: string, allowed: AllowList)
    decreases |r|
  {
    if r == "" then true
    else if r[0] == '<' then
      var e := IndexOf('>', r);
      && e < |r| && '<' !in r[1..e] && ElementOf(r[..e]) != "" && Lower(ElementOf(r[..e])) in allowed
      && OnlyAllowedTags(r[e + 1..], allowed)
    else r[0] != '>' && OnlyAllowedTags(r[1..], allowed)
  }

  lemma {:induction false} TextInFront(text: string, rest: string, allowed: AllowList)
    requires NoAngles(text)
    ensures OnlyAllowedTags(text + rest, allowed) == OnlyAllowedTags(rest, allowed)
    decreases |text|
  {
    if text == "" {
      assert text + rest == rest;
    } else {
      assert (text + rest)[0] == text[0] && text[0] in text;
      DropInLeft(text, rest, 1);
      TextInFront(text[1..], rest, allowed);
    }
  }

  lemma TailStartsWithSpace(attrs: seq<Attr>, slash: bool)
    ensures var tail := Tail(attrs, slash); tail == "" || tail[0] == ' '
  {
    if attrs != [] {
      assert Markup(attrs)[0] == ' ';
    }
  }

  lemma RunOfElement(element: string, tail: string)
    requires (forall i :: 0 <= i < |element| ==> In(Alnum, element[i])) && (tail == "" || tail[0] == ' ')
    ensures Run(Alnum, element + tail) == |element| && (element + tail)[..|element|] == element
  {
    RunExactly(Alnum, element, tail);
  }

  lemma ElementOfShape(element: string, tail: string)
    requires element != "" && (forall i :: 0 <= i < |element| ==> In(Alnum, element[i]))
    requires tail == "" || tail[0] == ' '
    ensures ElementOf("<" + (element + tail)) == element
    ensures ElementOf("<" + ("/" + (element + tail))) == element
  {
    RunOfElement(element, tail);
    hide Run;
    var b := element + tail;
    var opening, closing := "<" + b, "<" + ("/" + b);
    assert opening[1] == element[0] && opening[1..] == b;
    assert closing[1] == '/' && closing[2..] == b;
  }

  lemma ElementIsShown(t: Token, allowed: AllowList)
    requires t.Tag? && Fine(t, allowed)
    ensures var s := Show(t); |s| >= 1 && ElementOf(s[..|s| - 1]) == t.element
  {
    var tail := Tail(t.attrs, t.slash);
    TailStartsWithSpace(t.attrs, t.slash);
    ElementOfShape(t.element, tail);
    hide Tail, ElementOf;
    var inner := "<" + ((if t.closing then "/" else "") + (t.element + tail));
    TakeInLeft(inner, ">", |inner|);
    assert inner[..|inner|] == inner;
    if !t.closing {
      assert "" + (t.element + tail) == t.element + tail;
    }
  }

  // s ends with the first closing bracket in it.
  lemma TagTextInFront(s: string, rest: string, allowed: AllowList)
    requires |s| >= 2 && s[0] == '<' && s[|s| - 1] == '>' && NoAngles(s[1..|s| - 1])
    requires ElementOf(s[..|s| - 1]) != "" && Lower(ElementOf(s[..|s| - 1])) in allowed
    ensures OnlyAllowedTags(s + rest, allowed) == OnlyAllowedTags(rest, allowed)
  {
    hide ElementOf, IndexOf;
    var n := |s|;
    var front := s[..n - 1];
    assert front == "<" + s[1..n - 1];
    assert s == front + ">";
    Assoc(front, ">", rest);
    IndexExactly('>', front, ">" + rest);
    TakeInLeft(front, ">" + rest, n - 1);
    assert front[..n - 1] == front;
    DropInLeft(s, rest, n);
    assert s[n..] + rest == rest;
    assert (s + rest)[1..n - 1] == s[1..n - 1];
  }

  lemma TagInFront(t: Token, rest: string, allowed: AllowList)
    requires t.Tag? && Fine(t, allowed)
    ensures OnlyAllowedTags(Show(t) + rest, allowed) == OnlyAllowedTags(rest, allowed)
  {
    hide Show, ElementOf, OnlyAllowedTags;
    TagIsClosed(t, allowed);
    ElementIsShown(t, allowed);
    TagTextInFront(Show(t), rest, allowed);
  }

  lemma {:induction false} ShownIsAllowed(ts: seq<Token>, allowed: AllowList)
    requires AllFine(ts, allowed)
    ensures OnlyAllowedTags(Shown(ts), allowed)
  {
    if ts != [] {
      assert Fine(ts[0], allowed);
      ShownIsAllowed(ts[1..], allowed);
      if ts[0].Text? {
        TextInFront(ts[0].text, Shown(ts[1..]), allowed);
      } else {
        TagInFront(ts[0], Shown(ts[1..]), allowed);
      }
    }
  }

  /** For every input and allow-list, reading the output from left to right finds
      text without brackets and closed tags of allowed elements, and nothing else. */
  lemma OutputHasOnlyAllowedTags(s: string, allowed: AllowList, protocols: seq<string>)
    ensures OnlyAllowedTags(SplitTags(s, allowed, protocols), allowed)
  {
    TagStructure(s, allowed, protocols);
    ShownIsAllowed(Tokens(s, allowed, protocols), allowed);
  }
}
