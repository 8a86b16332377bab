/**
 The checks an allow-list can ask of an attribute's value (licqweb/kses.php:313-376), by
 the values that pass them.
 */
module KsesChecks {
  import opened Sequences
  import opened KsesEntities
  import opened KsesProtocol
  import opened KsesHair
  import opened KsesWords
  import opened KsesWritten
  import opened KsesDisguise
  import opened KsesTags

  /** A number as a value may give it: one to six digits, with at most six white-space
      characters on each side, or a line feed more at the end. */
  predicate WrittenNumber(v: string, before: string, digits: string, behind: string) {
    && v == before + (digits + behind)
    && Blank(before) && |before| <= 6
    && 1 <= |digits| <= 6 && (forall i :: 0 <= i < |digits| ==> IsDigit(digits[i]))
    && Blank(behind) && (|behind| <= 6 || (|behind| == 7 && behind[6] == '\n'))
  }

  ghost predicate IsWrittenNumber(v: string) {
    exists before: string, digits: string, behind: string :: WrittenNumber(v, before, digits, behind)
  }

  lemma ScannerOf(v: string, a: nat, d: nat)
    requires a == Span(Space, v) && d == Run(Digits, v[a..])
    ensures SmallNumber(v) == if NumberAt(v, a, d) then v[a..][..d] else ""
  {
    hide Span, Run, NumberAt;
    assert v[a..][0..d] == v[a..][..d];
  }

  lemma NumberIsRead(v: string, before: string, digits: string, behind: string)
    requires WrittenNumber(v, before, digits, behind)
    ensures SmallNumber(v) == digits && digits != ""
  {
    NumberInPlace(before, digits, behind);
    ScannedNumber(before, digits, behind);
    ScannerOf(v, |before|, |digits|);
    hide Span, Run, SmallNumber, Blank;
  }

  lemma ScannedNumber(before: string, digits: string, behind: string)
    requires WrittenNumber(before + (digits + behind), before, digits, behind)
    ensures Span(Space, before + (digits + behind)) == |before| && Run(Digits, digits + behind) == |digits|
    ensures Span(Space, behind) == |behind|
  {
    assert behind != "" ==> (digits + behind)[|digits|] == behind[0];
    assert (digits + behind)[0] == digits[0];
    SpanExactly(Space, before, digits + behind);
    RunExactly(Digits, digits, behind);
    SpanExactly(Space, behind, "");
    assert behind + "" == behind;
  }

  lemma NumberInPlace(before: string, digits: string, behind: string)
    ensures var v, a, d := before + (digits + behind), |before|, |digits|;
      && v[a..] == digits + behind && v[a + d..] == behind && v[a..][..d] == digits && |v| == a + d + |behind|
      && (behind != "" ==> v[|v| - 1] == behind[|behind| - 1])
  {}

  lemma SpanIsBlank(s: string)
    ensures Blank(s[..Span(Space, s)])
  {}

  lemma ReadIsNumber(v: string)
    requires SmallNumber(v) != ""
    ensures IsWrittenNumber(v)
  {
    var a := Span(Space, v);
    var d := Run(Digits, v[a..]);
    ScannerOf(v, a, d);
    SpanIsBlank(v);
    SpanIsBlank(v[a + d..]);
    PiecesOf(v, a, d);
    ShapeIsNumber(v, a, d);
  }

  lemma ShapeIsNumber(v: string, a: nat, d: nat)
    requires NumberAt(v, a, d) && Blank(v[..a]) && Blank(v[a + d..])
    requires forall i :: a <= i < a + d ==> IsDigit(v[i])
    ensures WrittenNumber(v, v[..a], v[a..a + d], v[a + d..])
  {
    PiecesOf(v, a, d);
    hide Span, Blank;
  }

  lemma PiecesOf(v: string, a: nat, d: nat)
    requires a + d <= |v|
    ensures v == v[..a] + (v[a..a + d] + v[a + d..])
    ensures v[a + d..][..|v| - a - d] == v[a + d..]
    ensures a + d < |v| ==> v[a + d..][|v| - a - d - 1] == v[|v| - 1]
  {}

  /** A value passes maxval or minval exactly when it is written as a number on that side of the limit. */
  lemma NumberChecksIff(a: Attr, most: nat, least: nat)
    ensures Passes(a, MaxVal(most)) <==> exists before: string, digits: string, behind: string ::
      WrittenNumber(a.value, before, digits, behind) && Value(digits) <= most
    ensures Passes(a, MinVal(least)) <==> exists before: string, digits: string, behind: string ::
      WrittenNumber(a.value, before, digits, behind) && Value(digits) >= least
  {
    if SmallNumber(a.value) != "" {
      ReadIsNumber(a.value);
    }
    hide SmallNumber, Value;
    forall before: string, digits: string, behind: string | WrittenNumber(a.value, before, digits, behind)
      ensures SmallNumber(a.value) == digits && digits != ""
    {
      NumberIsRead(a.value, before, digits, behind);
    }
    NumberOrNot(a, most, least);
    hide WrittenNumber, Passes;
  }

  lemma NumberOrNot(a: Attr, most: nat, least: nat)
    ensures Passes(a, MaxVal(most)) <==> SmallNumber(a.value) != "" && Value(SmallNumber(a.value)) <= most
    ensures Passes(a, MinVal(least)) <==> SmallNumber(a.value) != "" && Value(SmallNumber(a.value)) >= least
  {
    hide SmallNumber, Value;
  }

  /** The number n, with needless zeros, passes exactly the limits that n meets. */
  lemma NumberPassesIff(a: Attr, before: string, zeros: nat, n: nat, behind: string, limit: nat)
    requires WrittenNumber(a.value, before, ZeroDigits(zeros) + Decimal(n), behind)
    ensures Passes(a, MaxVal(limit)) <==> n <= limit
    ensures Passes(a, MinVal(limit)) <==> n >= limit
  {
    hide WrittenNumber, SmallNumber, Value, Decimal, ZeroDigits;
    NumberIsRead(a.value, before, ZeroDigits(zeros) + Decimal(n), behind);
    DigitsOfNumber(n, zeros);
    NumberOrNot(a, limit, limit);
    hide Passes;
  }

  /** maxlen and minlen with one limit leave the values of that length. */
  lemma LengthChecksIff(a: Attr, limit: nat)
    ensures Passes(a, MaxLen(limit)) && Passes(a, MinLen(limit)) <==> |a.value| == limit
    ensures Passes(a, MaxLen(limit)) || Passes(a, MinLen(limit + 1))
    ensures !(Passes(a, MaxLen(limit)) && Passes(a, MinLen(limit + 1)))
  {}

  /** "y" and "Y" let flags pass, "n" and "N" attributes with a value, anything else nothing. */
  lemma ValuelessCheckIff(a: Attr, flag: string)
    ensures Passes(a, ValuelessCheck(flag)) <==> if a.vless then flag == "y" || flag == "Y" else flag == "n" || flag == "N"
  {
    if |flag| == 1 {
      assert flag == [flag[0]] && Lower(flag) == [LowerChar(flag[0])];
    }
  }

  /** An attribute passes a list of checks exactly when it passes each part of it; without
      checks it is admitted, and without an entry never. */
  lemma ChecksAddUp(a: Attr, rules: map<string, AttrRule>, cs: seq<Check>, ds: seq<Check>)
    ensures AllowedAttr(a, rules[Lower(a.name) := Checks(cs + ds)]) ==
      (AllowedAttr(a, rules[Lower(a.name) := Checks(cs)]) && AllowedAttr(a, rules[Lower(a.name) := Checks(ds)]))
    ensures AllowedAttr(a, rules[Lower(a.name) := Checks([])]) && AllowedAttr(a, rules[Lower(a.name) := NoChecks])
    ensures !AllowedAttr(a, rules - {Lower(a.name)})
  {
    hide Passes, Lower;
    assert forall c :: c in cs + ds <==> c in cs || c in ds;
  }

  lemma OneCheck(a: Attr, rules: map<string, AttrRule>, c: Check)
    ensures AllowedAttr(a, rules[Lower(a.name) := Checks([c])]) <==> Passes(a, c)
  {
    hide Passes, Lower;
  }
}
