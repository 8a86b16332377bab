/**
 Escaping of one part of a D-Bus object path (dbus/src/dbusinterface.cpp:374-434).
 An octet outside the alphabet is written as an underscore and two hex digits.
 */
module ObjectPathPart {
  import opened Sequences

  type Octet = c: char | c as int < 0x100

  type Str = seq<Octet>

  predicate IsAlphaNum(c: Octet) {
    '0' <= c <= '9' || 'A' <= c <= 'Z' || 'a' <= c <= 'z'
  }

  // allowedChars[n].
  function HexDigit(n: nat): (c: Octet)
    requires n < 16
  {
    if n < 10 then ('0' as int + n) as char else ('A' as int + n - 10) as char
  }

  predicate IsHexDigit(c: Octet) {
    '0' <= c <= '9' || 'A' <= c <= 'F'
  }

  function HexValue(c: Octet): (n: nat)
    requires IsHexDigit(c)
    ensures n < 16
  {
    c as int - '0' as int - if c > '9' then 7 else 0
  }

  function EncodedOctet(c: Octet): (r: Str) {
    if IsAlphaNum(c) then [c] else ['_', HexDigit(c as int / 16), HexDigit(c as int % 16)]
  }

  function Encoded(s: Str): (r: Str) {
    if s == [] then [] else EncodedOctet(s[0]) + Encoded(s[1..])
  }

  /** What the decoder makes of a part, when it answers at all. */
  function Decoded(s: Str): (r: Str) {
    if |s| < 3 then s
    else if s[0] == '_' && IsHexDigit(s[1]) && IsHexDigit(s[2]) then
      [(16 * HexValue(s[1]) + HexValue(s[2])) as char] + Decoded(s[3..])
    else [s[0]] + Decoded(s[1..])
  }

  // ----- searching, with |s| for "not found" -----

  function Find(s: Str, c: Octet, from: nat): (n: nat)
    ensures n <= |s| && (n < |s| ==> from <= n && s[n] == c)
    ensures forall k :: from <= k < n ==> s[k] != c
    decreases |s| - from
  {
    if from >= |s| then |s| else if s[from] == c then from else Find(s, c, from + 1)
  }

  function FindSpecial(s: Str, from: nat): (n: nat)
    requires from <= |s|
    ensures from <= n <= |s| && (n < |s| ==> !IsAlphaNum(s[n]))
    ensures forall k :: from <= k < n ==> IsAlphaNum(s[k])
    decreases |s| - from
  {
    if from == |s| || !IsAlphaNum(s[from]) then from else FindSpecial(s, from + 1)
  }

  lemma FindIs(s: Str, c: Octet, from: nat, n: nat)
    requires from <= n <= |s| && (n < |s| ==> s[n] == c)
    requires forall k :: from <= k < n ==> s[k] != c
    ensures Find(s, c, from) == n
  {}

  // ----- the encoder -----

  lemma {:induction false} EncodedConcat(a: Str, b: Str)
    ensures Encoded(a + b) == Encoded(a) + Encoded(b)
  {
    if a == [] {
      assert a + b == b;
    } else {
      DropInLeft(a, b, 1);
      EncodedConcat(a[1..], b);
      Assoc(EncodedOctet(a[0]), Encoded(a[1..]), Encoded(b));
    }
  }

  lemma {:induction false} AlphaNumStays(s: Str)
    requires forall k :: 0 <= k < |s| ==> IsAlphaNum(s[k])
    ensures Encoded(s) == s
  {
    if s != [] {
      AlphaNumStays(s[1..]);
    }
  }

  method Encode(s: Str) returns (ret: Str)
    ensures ret == Encoded(s)
  {
    hide Encoded, EncodedOctet;
    ret := [];
    var lastpos := 0;
    var pos := FindSpecial(s, lastpos);
    EncodedOfNothing();
    while pos != |s|
      invariant 0 <= lastpos <= |s| && pos == FindSpecial(s, lastpos) && ret == Encoded(s[..lastpos])
      decreases |s| - lastpos
    {
      EncodedStretch(s, lastpos, pos);
      ret := ret + s[lastpos..pos];
      ret := ret + ['_'];
      ret := ret + [HexDigit(s[pos] as int / 16)];
      ret := ret + [HexDigit(s[pos] as int % 16)];
      EncodedSpecial(s, pos);
      lastpos := pos + 1;
      pos := FindSpecial(s, lastpos);
    }
    EncodedStretch(s, lastpos, |s|);
    ret := ret + s[lastpos..];
    assert s[..|s|] == s && s[lastpos..|s|] == s[lastpos..];
  }

  lemma EncodedOfNothing()
    ensures forall s: Str :: Encoded(s[..0]) == []
  {}

  lemma EncodedStretch(s: Str, m: nat, n: nat)
    requires m <= n <= |s| && forall k :: m <= k < n ==> IsAlphaNum(s[k])
    ensures Encoded(s[..m]) + s[m..n] == Encoded(s[..n])
  {
    AlphaNumStays(s[m..n]);
    EncodedConcat(s[..m], s[m..n]);
    assert s[..m] + s[m..n] == s[..n];
  }

  lemma EncodedSpecial(s: Str, n: nat)
    requires n < |s| && !IsAlphaNum(s[n])
    ensures Encoded(s[..n]) + ['_'] + [HexDigit(s[n] as int / 16)] + [HexDigit(s[n] as int % 16)] == Encoded(s[..n + 1])
  {
    EncodedConcat(s[..n], [s[n]]);
    OneMore(s, n);
    assert [s[n]][1..] == [];
    assert Encoded([s[n]]) == EncodedOctet(s[n]);
  }

  /** Only the alphabet comes out, so no slash. */
  lemma {:induction false} EncodingAlphabet(s: Str)
    ensures forall k :: 0 <= k < |Encoded(s)| ==> IsAlphaNum(Encoded(s)[k]) || Encoded(s)[k] == '_'
    ensures |Encoded(s)| >= |s| && (Encoded(s) == [] <==> s == [])
  {
    if s != [] {
      EncodingAlphabet(s[1..]);
    }
  }

  lemma {:induction false} ShortIsPlain(s: Str)
    requires |Encoded(s)| < 3
    ensures Encoded(s) == s && forall k :: 0 <= k < |s| ==> IsAlphaNum(s[k])
  {
    if s != [] {
      ShortIsPlain(s[1..]);
    }
  }

  lemma HexRoundTrip(c: Octet)
    ensures var d, e := HexDigit(c as int / 16), HexDigit(c as int % 16);
      IsHexDigit(d) && IsHexDigit(e) && 16 * HexValue(d) + HexValue(e) == c as int
  {}

  /** Decoding undoes encoding, on every string. */
  lemma {:induction false} DecodedUndoesEncoded(s: Str)
    ensures Decoded(Encoded(s)) == s
  {
    if |Encoded(s)| < 3 {
      ShortIsPlain(s);
    } else if s != [] {
      var rest := Encoded(s[1..]);
      DecodedUndoesEncoded(s[1..]);
      if IsAlphaNum(s[0]) {
        assert ([s[0]] + rest)[1..] == rest;
      } else {
        HexRoundTrip(s[0]);
        var e := EncodedOctet(s[0]);
        DropInLeft(e, rest, 3);
        assert e[3..] + rest == rest;
        assert (16 * HexValue(e[1]) + HexValue(e[2])) as char == s[0];
      }
      assert s == [s[0]] + s[1..];
    }
  }

  lemma EncodedIsInjective(s: Str, t: Str)
    requires Encoded(s) == Encoded(t)
    ensures s == t
  {
    DecodedUndoesEncoded(s);
    DecodedUndoesEncoded(t);
  }

  // ----- the decoder, with the arithmetic of size_t -----

  const WORD := 0x1_0000_0000_0000_0000

  const NPOS := WORD - 1

  // std::string::find.
  function FindPos(s: Str, from: nat): (pos: nat) {
    var n := Find(s, '_', from);
    if n == |s| then NPOS else n
  }

  // The loop condition; the subtraction wraps round below three.
  predicate Goes(s: Str, lastpos: nat) {
    FindPos(s, lastpos) <= (|s| - 3) % WORD
  }

  /** The loop can be left at some position exactly when the part is not two octets long. */
  lemma LoopEndsIffNotTwo(s: Str)
    requires |s| < NPOS
    ensures (exists lastpos :: 0 <= lastpos <= |s| && !Goes(s, lastpos)) <==> |s| != 2
  {
    if |s| == 2 {
      assert (|s| - 3) % WORD == NPOS;
    } else {
      assert Find(s, '_', |s|) == |s|;
      assert |s| >= 3 ==> (|s| - 3) % WORD == |s| - 3;
      assert |s| < 3 ==> (|s| - 3) % WORD == |s| - 3 + WORD;
      assert !Goes(s, |s|);
    }
  }

  /** A single underscore makes it read beyond the terminating NUL. */
  predicate Answers(s: Str) {
    |s| != 2 && s != ['_']
  }

  lemma Bound(s: Str)
    requires |s| < NPOS && |s| != 2
    ensures (|s| - 3) % WORD == if |s| < 3 then |s| - 3 + WORD else |s| - 3
  {}

  lemma {:induction false} CopiedUpTo(s: Str, n: nat)
    requires n + 3 <= |s| && forall k :: 0 <= k < n ==> s[k] != '_'
    ensures Decoded(s) == s[..n] + Decoded(s[n..])
  {
    if n == 0 {
      assert s[..0] == [] && s[0..] == s;
    } else {
      CopiedUpTo(s[1..], n - 1);
      DropTwice(s, 1, n - 1);
      assert s[..n] == [s[0]] + s[1..][..n - 1];
      Assoc([s[0]], s[1..][..n - 1], Decoded(s[n..]));
    }
  }

  lemma {:induction false} TailIsCopied(s: Str)
    requires forall k :: 0 <= k && k + 3 <= |s| ==> s[k] != '_'
    ensures Decoded(s) == s
  {
    if |s| >= 3 {
      TailIsCopied(s[1..]);
    }
  }

  method Decode(s: Str) returns (ret: Str)
    requires |s| < NPOS && Answers(s)
    ensures ret == Decoded(s)
  {
    hide Decoded;
    Bound(s);
    ret := [];
    var lastpos := 0;
    assert s[0..] == s;
    while Goes(s, lastpos)
      invariant 0 <= lastpos <= |s|
      invariant ret + Decoded(s[lastpos..]) == Decoded(s)
      invariant lastpos == 0 || |s| >= 3
      decreases |s| - lastpos
    {
      var pos := FindPos(s, lastpos);
      assert pos + 3 <= |s|;
      UpToUnderscore(s, lastpos, pos, ret);
      ret := ret + s[lastpos..pos];
      var c1 := s[pos + 1];
      var c2 := s[pos + 2];
      OneStep(s, pos, ret);
      if c1 < '0' || (c1 > '9' && c1 < 'A') || c1 > 'F' || c2 < '0' || (c2 > '9' && c2 < 'A') || c2 > 'F' {
        ret := ret + ['_'];
        lastpos := pos + 1;
      } else {
        ret := ret + [((c1 as int - '0' as int - (if c1 > '9' then 7 else 0)) * 16
                       + (c2 as int - '0' as int - (if c2 > '9' then 7 else 0))) as char];
        lastpos := pos + 3;
      }
    }
    TailIsCopied(s[lastpos..]);
    ret := ret + s[lastpos..];
  }

  lemma UpToUnderscore(s: Str, lastpos: nat, pos: nat, ret: Str)
    requires lastpos <= pos && pos + 3 <= |s| && forall k :: lastpos <= k < pos ==> s[k] != '_'
    ensures ret + Decoded(s[lastpos..]) == ret + s[lastpos..pos] + Decoded(s[pos..])
  {
    CopiedUpTo(s[lastpos..], pos - lastpos);
    DropTwice(s, lastpos, pos - lastpos);
    assert s[lastpos..][..pos - lastpos] == s[lastpos..pos];
    Assoc(ret, s[lastpos..pos], Decoded(s[pos..]));
  }

  lemma OneStep(s: Str, pos: nat, ret: Str)
    requires pos + 3 <= |s| && s[pos] == '_'
    ensures var c1, c2 := s[pos + 1], s[pos + 2];
      ret + Decoded(s[pos..]) ==
      if IsHexDigit(c1) && IsHexDigit(c2) then ret + [(16 * HexValue(c1) + HexValue(c2)) as char] + Decoded(s[pos + 3..])
      else ret + ['_'] + Decoded(s[pos + 1..])
  {
    DropTwice(s, pos, 1);
    DropTwice(s, pos, 3);
  }

  /** Decode(Encode(s)) is s, but for the strings of two alphanumerics: on those, and
      only those, the decoder does not answer. */
  lemma EncodedAnswersIffNotTwo(s: Str)
    ensures Answers(Encoded(s)) <==> !(|s| == 2 && IsAlphaNum(s[0]) && IsAlphaNum(s[1]))
  {
    EncodingAlphabet(s);
    if |Encoded(s)| < 3 {
      ShortIsPlain(s);
    } else if |s| == 2 && IsAlphaNum(s[0]) && IsAlphaNum(s[1]) {
      AlphaNumStays(s);
    }
  }

  // ----- any part, escaped or not -----

  // An octet in hex.
  function EscapeOf(c: Octet): (r: Str) {
    ['_', HexDigit(c as int / 16), HexDigit(c as int % 16)]
  }

  /** Behind text without underscores an escape is read as its octet, whatever octet that is. */
  lemma EscapeIsRead(front: Str, c: Octet, rest: Str)
    requires '_' !in front
    ensures Decoded(front + (EscapeOf(c) + rest)) == front + ([c] + Decoded(rest))
  {
    var e := EscapeOf(c) + rest;
    var s := front + e;
    assert forall k :: 0 <= k < |front| ==> s[k] == front[k] && s[k] in front;
    CopiedUpTo(s, |front|);
    assert s[..|front|] == front && s[|front|..] == e;
    HexRoundTrip(c);
    assert e[3..] == rest;
  }

  /** An underscore that starts no escape is itself. */
  lemma OtherIsItself(front: Str, c1: Octet, c2: Octet, rest: Str)
    requires '_' !in front && forall c :: EscapeOf(c) != ['_', c1, c2]
    ensures Decoded(front + (['_', c1, c2] + rest)) == front + (['_'] + Decoded([c1, c2] + rest))
  {
    var e := ['_', c1, c2] + rest;
    var s := front + e;
    assert forall k :: 0 <= k < |front| ==> s[k] == front[k] && s[k] in front;
    CopiedUpTo(s, |front|);
    assert s[..|front|] == front && s[|front|..] == e;
    assert e[1..] == [c1, c2] + rest;
    if IsHexDigit(c1) && IsHexDigit(c2) {
      TwoDigitsAreEscape(c1, c2);
    }
  }

  lemma TwoDigitsAreEscape(c1: Octet, c2: Octet)
    requires IsHexDigit(c1) && IsHexDigit(c2)
    ensures exists c :: EscapeOf(c) == ['_', c1, c2]
  {
    var c: Octet := (16 * HexValue(c1) + HexValue(c2)) as char;
    assert EscapeOf(c) == ['_', c1, c2];
  }
}
