/**
 OSCAR TLV blocks (icq/src/buffer.cpp:88-167, 181-195, 273-283): a type and a
 length, big-endian, and the value; written by PackTLV, read by readTLV under its
 three stop rules: a count, a number of bytes, the end of the buffer.
 */
module OscarTlv {
  import opened Sequences
  import opened Bytes

  datatype Tlv = Tlv(kind: UInt16, value: seq<Byte>)

  predicate Fits(t: Tlv) {
    |t.value| < 0x1_0000
  }

  predicate AllFit(ts: seq<Tlv>) {
    forall i :: 0 <= i < |ts| ==> Fits(ts[i])
  }

  function Packed(t: Tlv): (r: seq<Byte>)
    requires Fits(t)
    ensures |r| == 4 + |t.value|
  {
    Be16(t.kind) + Be16(|t.value|) + t.value
  }

  function PackedAll(ts: seq<Tlv>): (r: seq<Byte>)
    requires AllFit(ts)
  {
    if ts == [] then [] else Packed(ts[0]) + PackedAll(ts[1..])
  }

  // A pack that does not fit is dropped.
  function Kept(data: seq<Byte>, capacity: nat, bytes: seq<Byte>): (r: seq<Byte>) {
    if |data| + |bytes| <= capacity then data + bytes else data
  }

  function InPieces(data: seq<Byte>, capacity: nat, t: Tlv): (r: seq<Byte>)
    requires Fits(t)
  {
    Kept(Kept(Kept(data, capacity, Be16(t.kind)), capacity, Be16(|t.value|)), capacity, t.value)
  }

  method PackTlv(b: Buffer, t: Tlv)
    requires Fits(t)
    modifies b
    ensures b.data == InPieces(old(b.data), b.capacity, t)
  {
    b.PackUnsignedShortBE(t.kind);
    b.PackUnsignedShortBE(|t.value|);
    b.PackRaw(t.value);
  }

  /** The three pieces make up the block exactly when there is room for all of it. */
  lemma PackedWholeIff(data: seq<Byte>, capacity: nat, t: Tlv)
    requires Fits(t) && |data| <= capacity
    ensures InPieces(data, capacity, t) == data + Packed(t) <==> |data| + |Packed(t)| <= capacity
  {
    assert InPieces(data, capacity, t) == data + Packed(t) ==> |InPieces(data, capacity, t)| == |data| + |Packed(t)|;
    Assoc(data, Be16(t.kind), Be16(|t.value|));
    Assoc(data, Be16(t.kind) + Be16(|t.value|), t.value);
  }

  // ----- one block -----

  function KindAt(data: seq<Byte>, pos: nat): (n: UInt16)
    requires pos + 4 <= |data|
  {
    FromBe16(data[pos..pos + 2])
  }

  function LengthAt(data: seq<Byte>, pos: nat): (n: UInt16)
    requires pos + 4 <= |data|
  {
    FromBe16(data[pos + 2..pos + 4])
  }

  // A block without a value, or whose value would end behind the buffer, is read as empty.
  predicate HasValue(data: seq<Byte>, pos: nat)
    requires pos + 4 <= |data|
  {
    1 <= LengthAt(data, pos) && pos + 4 + LengthAt(data, pos) <= |data|
  }

  function TlvAt(data: seq<Byte>, pos: nat): (t: Tlv)
    requires pos + 4 <= |data|
    ensures Fits(t) && pos + 4 + |t.value| <= |data|
  {
    Tlv(KindAt(data, pos), if HasValue(data, pos) then data[pos + 4..pos + 4 + LengthAt(data, pos)] else [])
  }

  // ----- the loop -----

  /** counted: header and declared value lengths; ranOut: stopped by the end of the buffer. */
  datatype Reading = Reading(tlvs: seq<Tlv>, pos: nat, counted: nat, ranOut: bool)

  predicate Enough(count: int, bytes: int, num: nat, counted: nat) {
    (count > 0 && num == count) || (bytes > 0 && counted >= bytes)
  }

  function ReadFrom(data: seq<Byte>, pos: nat, count: int, bytes: int, num: nat, counted: nat): (r: Reading)
    requires pos <= |data|
    ensures pos <= r.pos <= |data| && AllFit(r.tlvs)
    decreases |data| - pos
  {
    if pos + 4 > |data| then Reading([], pos, counted, true)
    else
      var t := TlvAt(data, pos);
      var past := pos + 4 + |t.value|;
      var c := counted + 4 + LengthAt(data, pos);
      if Enough(count, bytes, num + 1, c) then Reading([t], past, c, false)
      else
        var r := ReadFrom(data, past, count, bytes, num + 1, c);
        r.(tlvs := [t] + r.tlvs)
  }

  lemma ReadStep(data: seq<Byte>, pos: nat, count: int, bytes: int, num: nat, counted: nat)
    requires pos + 4 <= |data|
    ensures var t := TlvAt(data, pos);
      var c := counted + 4 + LengthAt(data, pos);
      var past := pos + 4 + |t.value|;
      ReadFrom(data, pos, count, bytes, num, counted) ==
      if Enough(count, bytes, num + 1, c) then Reading([t], past, c, false)
      else var r := ReadFrom(data, past, count, bytes, num + 1, c); r.(tlvs := [t] + r.tlvs)
  {
    hide TlvAt, LengthAt, Enough;
  }

  lemma ReadEnd(data: seq<Byte>, pos: nat, count: int, bytes: int, num: nat, counted: nat)
    requires pos <= |data| < pos + 4
    ensures ReadFrom(data, pos, count, bytes, num, counted) == Reading([], pos, counted, true)
  {}

  function Min(a: int, b: int): int {
    if a < b then a else b
  }

  // Where the cursor ends: what is missing of the requested bytes is skipped.
  function EndOf(data: seq<Byte>, r: Reading, bytes: int): (pos: nat)
    requires r.pos <= |data|
    ensures r.pos <= pos <= |data|
  {
    if r.ranOut && r.counted < bytes then Min(r.pos + bytes - r.counted, |data|) else r.pos
  }

  type TlvMap = map<UInt16, seq<Byte>>

  function Saved(m: TlvMap, ts: seq<Tlv>): (r: TlvMap)
    decreases |ts|
  {
    if ts == [] then m else Saved(m[ts[0].kind := ts[0].value], ts[1..])
  }

  lemma SavedNothing(m: TlvMap)
    ensures Saved(m, []) == m
  {}

  lemma SavedStep(m: TlvMap, t: Tlv, ts: seq<Tlv>)
    ensures Saved(m, [t] + ts) == Saved(m[t.kind := t.value], ts)
  {
    assert ([t] + ts)[1..] == ts;
  }

  // The loop of readTLV under way: what it has saved and will read amounts to all.
  predicate UnderWay(data: seq<Byte>, pos: nat, count: int, bytes: int, num: nat, counted: nat, m: TlvMap, all: Reading) {
    pos <= |data| &&
    var r := ReadFrom(data, pos, count, bytes, num, counted);
    && Saved(m, r.tlvs) == Saved(map[], all.tlvs)
    && r.pos == all.pos && r.counted == all.counted && r.ranOut == all.ranOut
  }

  lemma StartOf(data: seq<Byte>, pos: nat, count: int, bytes: int)
    requires pos <= |data|
    ensures UnderWay(data, pos, count, bytes, 0, 0, map[], ReadFrom(data, pos, count, bytes, 0, 0))
  {}

  lemma RoundOf(data: seq<Byte>, pos: nat, count: int, bytes: int, num: nat, counted: nat, m: TlvMap, all: Reading)
    requires pos + 4 <= |data| && UnderWay(data, pos, count, bytes, num, counted, m, all)
    ensures var t := TlvAt(data, pos);
      var c := counted + 4 + LengthAt(data, pos);
      var past, m1 := pos + 4 + |t.value|, m[t.kind := t.value];
      if Enough(count, bytes, num + 1, c) then
        all.pos == past && all.counted == c && !all.ranOut && m1 == Saved(map[], all.tlvs)
      else UnderWay(data, past, count, bytes, num + 1, c, m1, all)
  {
    hide TlvAt, LengthAt, Enough, ReadFrom, Saved;
    ReadStep(data, pos, count, bytes, num, counted);
    var t := TlvAt(data, pos);
    var c := counted + 4 + LengthAt(data, pos);
    SavedNothing(m[t.kind := t.value]);
    SavedStep(m, t, []);
    assert [t] + [] == [t];
    SavedStep(m, t, ReadFrom(data, pos + 4 + |t.value|, count, bytes, num + 1, c).tlvs);
  }

  lemma LastOf(data: seq<Byte>, pos: nat, count: int, bytes: int, num: nat, counted: nat, m: TlvMap, all: Reading)
    requires pos + 4 > |data| && UnderWay(data, pos, count, bytes, num, counted, m, all)
    ensures all.pos == pos && all.counted == counted && all.ranOut && m == Saved(map[], all.tlvs)
  {
    SavedNothing(m);
    ReadEnd(data, pos, count, bytes, num, counted);
  }

  class OscarBuffer {
    const data: seq<Byte>
    var posRead: nat
    var tlvs: TlvMap

    constructor (bytes: seq<Byte>)
      ensures data == bytes && posRead == 0 && tlvs == map[]
    {
      data, posRead, tlvs := bytes, 0, map[];
    }

    method UnpackShortBE() returns (n: UInt16)
      requires posRead + 2 <= |data|
      modifies this`posRead
      ensures posRead == old(posRead) + 2 && n == FromBe16(data[old(posRead)..old(posRead) + 2])
    {
      n := FromBe16(data[posRead..posRead + 2]);
      posRead := posRead + 2;
    }

    /** One block, read and saved in the map. */
    method ReadBlock() returns (length: UInt16)
      requires posRead + 4 <= |data|
      modifies this
      ensures var t := TlvAt(data, old(posRead));
        && posRead == old(posRead) + 4 + |t.value| <= |data|
        && tlvs == old(tlvs)[t.kind := t.value]
      ensures length == LengthAt(data, old(posRead))
    {
      hide FromBe16;
      var kind := UnpackShortBE();
      length := UnpackShortBE();
      var value := [];
      if posRead + length <= |data| && length >= 1 {
        value := data[posRead..posRead + length];
        posRead := posRead + length;
      }
      tlvs := tlvs[kind := value];
    }

    method SkipBytes(n: nat)
      requires posRead <= |data|
      modifies this`posRead
      ensures posRead == Min(old(posRead) + n, |data|)
    {
      var i := 0;
      while i < n
        invariant 0 <= i <= n && posRead == Min(old(posRead) + i, |data|)
      {
        if posRead < |data| {
          posRead := posRead + 1;
        }
        i := i + 1;
      }
    }

    // The loop: stopped by the count or the bytes, or at the end of the buffer.
    method ReadBlocks(count: int, bytes: int) returns (stopped: bool, curBytes: nat)
      requires posRead <= |data| && tlvs == map[]
      modifies this
      ensures var r := ReadFrom(data, old(posRead), count, bytes, 0, 0);
        tlvs == Saved(map[], r.tlvs) && posRead == r.pos && curBytes == r.counted && stopped == !r.ranOut
    {
      hide TlvAt, LengthAt, Saved, ReadFrom, UnderWay;
      var num: nat := 0;
      curBytes := 0;
      ghost var all := ReadFrom(data, posRead, count, bytes, 0, 0);
      StartOf(data, posRead, count, bytes);
      while posRead + 4 <= |data|
        invariant posRead <= |data| && UnderWay(data, posRead, count, bytes, num, curBytes, tlvs, all)
        invariant (count > 0 ==> num < count) && (bytes > 0 ==> curBytes < bytes)
        decreases |data| - posRead
      {
        RoundOf(data, posRead, count, bytes, num, curBytes, tlvs, all);
        var length := ReadBlock();
        curBytes := curBytes + 4 + length;
        num := num + 1;
        if (count > 0 && num == count) || (bytes > 0 && curBytes == bytes) {
          return true, curBytes;
        }
        if bytes > 0 && curBytes > bytes {
          return true, curBytes;
        }
      }
      LastOf(data, posRead, count, bytes, num, curBytes, tlvs, all);
      stopped := false;
    }

    /** On any bytes and in any mode the loop ends and the cursor stays inside. */
    method ReadTlv(count: int, bytes: int) returns (ok: bool)
      requires posRead <= |data|
      modifies this
      ensures ok == (count != 0) && posRead <= |data|
      ensures !ok ==> tlvs == old(tlvs) && posRead == old(posRead)
      ensures ok ==>
        var r := ReadFrom(data, old(posRead), count, bytes, 0, 0);
        tlvs == Saved(map[], r.tlvs) && posRead == EndOf(data, r, bytes)
    {
      if count == 0 {
        return false;
      }
      hide ReadFrom, Saved;
      tlvs := map[];
      var stopped, curBytes := ReadBlocks(count, bytes);
      if !stopped && curBytes < bytes {
        SkipBytes(bytes - curBytes);
      }
      ok := true;
    }
  }

  // ----- what was packed is read -----

  lemma HeadIsRead(pre: seq<Byte>, t: Tlv, rest: seq<Byte>)
    requires Fits(t)
    ensures var data := pre + (Packed(t) + rest);
      |pre| + 4 <= |data| && TlvAt(data, |pre|) == t && LengthAt(data, |pre|) == |t.value|
  {
    var data := pre + (Packed(t) + rest);
    assert data[|pre|..|pre| + 2] == Be16(t.kind);
    assert data[|pre| + 2..|pre| + 4] == Be16(|t.value|);
    assert data[|pre| + 4..|pre| + 4 + |t.value|] == t.value;
  }

  function SizeOf(ts: seq<Tlv>): (n: nat)
    ensures n >= 4 * |ts|
  {
    if ts == [] then 0 else 4 + |ts[0].value| + SizeOf(ts[1..])
  }

  lemma {:induction false} SizeOfPacked(ts: seq<Tlv>)
    requires AllFit(ts)
    ensures |PackedAll(ts)| == SizeOf(ts)
  {
    if ts != [] {
      SizeOfPacked(ts[1..]);
    }
  }

  lemma SizeOfTail(ts: seq<Tlv>)
    requires |ts| > 1
    ensures SizeOf(ts) == 4 + |ts[0].value| + SizeOf(ts[1..])
    ensures SizeOf(ts[..|ts| - 1]) == 4 + |ts[0].value| + SizeOf(ts[1..][..|ts| - 2])
  {
    assert ts[..|ts| - 1][1..] == ts[1..][..|ts| - 2];
  }

  /** When the reader stops behind the last of these blocks and not before. */
  predicate StopsBehind(ts: seq<Tlv>, count: int, bytes: int, num: nat, counted: nat)
    requires ts != []
  {
    && (count > 0 ==> num + |ts| <= count)
    && (bytes > 0 ==> counted + SizeOf(ts[..|ts| - 1]) < bytes)
    && Enough(count, bytes, num + |ts|, counted + SizeOf(ts))
  }

  lemma PackedHead(pre: seq<Byte>, ts: seq<Tlv>, rest: seq<Byte>)
    requires AllFit(ts) && ts != []
    ensures var data, tail := pre + (PackedAll(ts) + rest), PackedAll(ts[1..]) + rest;
      data == pre + (Packed(ts[0]) + tail) == pre + Packed(ts[0]) + tail
  {
    hide Packed;
    Assoc(Packed(ts[0]), PackedAll(ts[1..]), rest);
    Assoc(pre, Packed(ts[0]), PackedAll(ts[1..]) + rest);
  }

  // The first block of several.
  lemma ReadHead(pre: seq<Byte>, ts: seq<Tlv>, rest: seq<Byte>, count: int, bytes: int, num: nat, counted: nat)
    requires AllFit(ts) && ts != []
    ensures var data := pre + (PackedAll(ts) + rest);
      var pre1 := pre + Packed(ts[0]);
      var c := counted + 4 + |ts[0].value|;
      && data == pre1 + (PackedAll(ts[1..]) + rest) && |pre1| == |pre| + 4 + |ts[0].value|
      && ReadFrom(data, |pre|, count, bytes, num, counted) ==
         if Enough(count, bytes, num + 1, c) then Reading([ts[0]], |pre1|, c, false)
         else var r := ReadFrom(data, |pre1|, count, bytes, num + 1, c); r.(tlvs := [ts[0]] + r.tlvs)
  {
    hide Packed, PackedAll, TlvAt, LengthAt, Enough, ReadFrom;
    var tail := PackedAll(ts[1..]) + rest;
    PackedHead(pre, ts, rest);
    HeadIsRead(pre, ts[0], tail);
    ReadStep(pre + (PackedAll(ts) + rest), |pre|, count, bytes, num, counted);
  }

  lemma {:induction false} ReadsExactlyFrom(
    pre: seq<Byte>, ts: seq<Tlv>, rest: seq<Byte>, count: int, bytes: int, num: nat, counted: nat)
    requires AllFit(ts) && ts != [] && |rest| >= 4
    requires (count > 0 ==> num < count) && (bytes > 0 ==> counted < bytes)
    ensures var r := ReadFrom(pre + (PackedAll(ts) + rest), |pre|, count, bytes, num, counted);
      && (r.tlvs == ts <==> StopsBehind(ts, count, bytes, num, counted))
      && (r.tlvs == ts ==> r == Reading(ts, |pre| + SizeOf(ts), counted + SizeOf(ts), false))
    decreases |ts|
  {
    hide Packed, PackedAll, ReadFrom;
    ReadHead(pre, ts, rest, count, bytes, num, counted);
    var data := pre + (PackedAll(ts) + rest);
    var pre1 := pre + Packed(ts[0]);
    var c := counted + 4 + |ts[0].value|;
    if |ts| == 1 {
      assert ts == [ts[0]] && ts[1..] == [] && ts[..0] == [];
      MoreIsRead(data, |pre1|, count, bytes, num + 1, c);
    } else {
      SizeOfTail(ts);
      if !Enough(count, bytes, num + 1, c) {
        ReadsExactlyFrom(pre1, ts[1..], rest, count, bytes, num + 1, c);
        assert ts == [ts[0]] + ts[1..];
      }
    }
  }

  lemma MoreIsRead(data: seq<Byte>, pos: nat, count: int, bytes: int, num: nat, counted: nat)
    requires pos + 4 <= |data|
    ensures ReadFrom(data, pos, count, bytes, num, counted).tlvs != []
  {}

  /** Of packed blocks with at least a header's length of other bytes behind them, the
      reader returns exactly these blocks, and then stops right behind them, if and
      only if its count or its bytes end the last of them and none before. */
  lemma ReadsExactlyIff(pre: seq<Byte>, ts: seq<Tlv>, rest: seq<Byte>, count: int, bytes: int)
    requires AllFit(ts) && ts != [] && |rest| >= 4 && count != 0
    ensures var data := pre + (PackedAll(ts) + rest);
      var r := ReadFrom(data, |pre|, count, bytes, 0, 0);
      && (r.tlvs == ts <==> StopsBehind(ts, count, bytes, 0, 0))
      && (r.tlvs == ts ==> data[EndOf(data, r, bytes)..] == rest)
  {
    ReadsExactlyFrom(pre, ts, rest, count, bytes, 0, 0);
    SizeOfPacked(ts);
    Assoc(pre, PackedAll(ts), rest);
  }

  /** With the number of blocks, or their total length, it does: whatever follows. */
  lemma {:induction false} RoundTrip(pre: seq<Byte>, ts: seq<Tlv>, rest: seq<Byte>, count: int, bytes: int, num: nat, counted: nat)
    requires AllFit(ts) && ts != []
    requires (count == num + |ts| && bytes <= 0) || (count < 0 && bytes == counted + SizeOf(ts))
    ensures ReadFrom(pre + (PackedAll(ts) + rest), |pre|, count, bytes, num, counted) ==
            Reading(ts, |pre| + SizeOf(ts), counted + SizeOf(ts), false)
    decreases |ts|
  {
    hide Packed, PackedAll, ReadFrom;
    ReadHead(pre, ts, rest, count, bytes, num, counted);
    var pre1 := pre + Packed(ts[0]);
    if |ts| == 1 {
      assert ts == [ts[0]] && ts[1..] == [];
    } else {
      SizeOfTail(ts);
      RoundTrip(pre1, ts[1..], rest, count, bytes, num + 1, counted + 4 + |ts[0].value|);
      assert ts == [ts[0]] + ts[1..];
    }
  }

  /** In the default mode it reads them all when nothing as long as a header follows. */
  lemma {:induction false} ReadsToTheEnd(pre: seq<Byte>, ts: seq<Tlv>, rest: seq<Byte>, num: nat, counted: nat)
    requires AllFit(ts) && |rest| < 4
    ensures ReadFrom(pre + (PackedAll(ts) + rest), |pre|, -1, -1, num, counted) ==
            Reading(ts, |pre| + SizeOf(ts), counted + SizeOf(ts), true)
    decreases |ts|
  {
    hide Packed, PackedAll, ReadFrom;
    if ts == [] {
      NothingPacked();
      ReadEnd(pre + (PackedAll(ts) + rest), |pre|, -1, -1, num, counted);
    } else {
      ReadHead(pre, ts, rest, -1, -1, num, counted);
      ReadsToTheEnd(pre + Packed(ts[0]), ts[1..], rest, num + 1, counted + 4 + |ts[0].value|);
      assert ts == [ts[0]] + ts[1..];
    }
  }

  // ----- what was read, on any bytes -----

  /** Followed by their declared lengths, the blocks from pos on, up to the one that
      ends the reading, have their values inside the buffer. */
  predicate ValuesInside(data: seq<Byte>, pos: nat, count: int, bytes: int, num: nat, counted: nat)
    requires pos <= |data|
    decreases |data| - pos
  {
    pos + 4 > |data| ||
    var past := pos + 4 + LengthAt(data, pos);
    var c := counted + 4 + LengthAt(data, pos);
    past <= |data| && (Enough(count, bytes, num + 1, c) || ValuesInside(data, past, count, bytes, num + 1, c))
  }

  lemma ValueAtHead(data: seq<Byte>, pos: nat)
    requires pos + 4 <= |data|
    ensures |TlvAt(data, pos).value| == if pos + 4 + LengthAt(data, pos) <= |data| then LengthAt(data, pos) else 0
    ensures pos + 4 + LengthAt(data, pos) > |data| ==> LengthAt(data, pos) > 0
  {}

  /** The reader never counts less than it moves. What it has read, packed again, is
      the bytes it passed over if and only if no value would have ended behind the
      buffer; then, and only then, it has counted the bytes it moved. */
  lemma {:induction false} FaithfulIff(data: seq<Byte>, pos: nat, count: int, bytes: int, num: nat, counted: nat)
    requires pos <= |data|
    ensures var r := ReadFrom(data, pos, count, bytes, num, counted);
      && r.pos - pos == SizeOf(r.tlvs) <= r.counted - counted
      && (data[pos..r.pos] == PackedAll(r.tlvs) <==> ValuesInside(data, pos, count, bytes, num, counted))
      && (r.counted - counted == r.pos - pos <==> ValuesInside(data, pos, count, bytes, num, counted))
    decreases |data| - pos
  {
    hide Packed, PackedAll, TlvAt, LengthAt, ReadFrom, SizeOf, Enough;
    if pos + 4 > |data| {
      NothingPacked();
      ReadEnd(data, pos, count, bytes, num, counted);
    } else {
      var t := TlvAt(data, pos);
      var past := pos + 4 + |t.value|;
      var c := counted + 4 + LengthAt(data, pos);
      HeadIsFaithfulIff(data, pos);
      ValueAtHead(data, pos);
      ReadStep(data, pos, count, bytes, num, counted);
      if Enough(count, bytes, num + 1, c) {
        OnePacked(t);
      } else {
        FaithfulIff(data, past, count, bytes, num + 1, c);
        var s := ReadFrom(data, past, count, bytes, num + 1, c);
        MorePacked(t, s.tlvs);
        SplitSlice(data, pos, past, s.pos, Packed(t), PackedAll(s.tlvs));
      }
    }
  }

  lemma NothingPacked()
    ensures PackedAll([]) == [] && SizeOf([]) == 0
  {}

  lemma OnePacked(t: Tlv)
    requires Fits(t)
    ensures PackedAll([t]) == Packed(t) && SizeOf([t]) == 4 + |t.value|
  {
    assert [t][1..] == [] && Packed(t) + [] == Packed(t);
  }

  lemma MorePacked(t: Tlv, ts: seq<Tlv>)
    requires Fits(t) && AllFit(ts)
    ensures AllFit([t] + ts) && PackedAll([t] + ts) == Packed(t) + PackedAll(ts)
    ensures SizeOf([t] + ts) == 4 + |t.value| + SizeOf(ts)
  {
    assert ([t] + ts)[1..] == ts;
  }

  lemma HeadIsFaithfulIff(data: seq<Byte>, pos: nat)
    requires pos + 4 <= |data|
    ensures var t := TlvAt(data, pos);
      && |t.value| <= LengthAt(data, pos)
      && (data[pos..pos + 4 + |t.value|] == Packed(t) <==> |t.value| == LengthAt(data, pos))
  {
    var t := TlvAt(data, pos);
    var s := data[pos..pos + 4 + |t.value|];
    assert s[..2] == data[pos..pos + 2] && s[2..4] == data[pos + 2..pos + 4] && s[4..] == data[pos + 4..pos + 4 + |t.value|];
    if s == Packed(t) {
      assert s[2..4] == Be16(|t.value|);
    }
    if |t.value| == LengthAt(data, pos) {
      DigitsOf(data[pos..pos + 2]);
      DigitsOf(data[pos + 2..pos + 4]);
      assert s == s[..2] + s[2..4] + s[4..];
    }
  }

  lemma DigitsOf(s: seq<Byte>)
    requires |s| == 2
    ensures Be16(FromBe16(s)) == s
  {}

  lemma SplitSlice(data: seq<Byte>, i: nat, j: nat, k: nat, a: seq<Byte>, b: seq<Byte>)
    requires i <= j <= k <= |data| && |a| == j - i
    ensures data[i..k] == a + b <==> data[i..j] == a && data[j..k] == b
  {
    var s := data[i..k];
    assert s[..j - i] == data[i..j] && s[j - i..] == data[j..k];
    assert s == s[..j - i] + s[j - i..];
    assert (a + b)[..j - i] == a && (a + b)[j - i..] == b;
  }

  /** Followed by their declared lengths from pos on, some block ends at end; or no
      header is left in front of it; or end is behind the header of a block whose
      value is missing. */
  predicate BlockEndsAt(data: seq<Byte>, pos: nat, end: nat)
    requires pos <= end <= |data|
    decreases |data| - pos
  {
    pos + 4 > |data| ||
    var past := pos + 4 + LengthAt(data, pos);
    past == end || (past < end && BlockEndsAt(data, past, end)) || (past > |data| && pos + 4 == end)
  }

  /** Asked for a number of bytes that are there, the cursor ends behind exactly these
      bytes if and only if a block ends there. */
  lemma {:induction false} ConsumesRequestedIff(data: seq<Byte>, pos: nat, bytes: int, num: nat, counted: nat)
    requires 0 <= counted < bytes && pos + bytes - counted <= |data|
    ensures var r := ReadFrom(data, pos, -1, bytes, num, counted);
      EndOf(data, r, bytes) == pos + bytes - counted <==> BlockEndsAt(data, pos, pos + bytes - counted)
    decreases |data| - pos
  {
    hide TlvAt, LengthAt, ReadFrom;
    if pos + 4 > |data| {
      ReadEnd(data, pos, -1, bytes, num, counted);
    } else {
      ReadStep(data, pos, -1, bytes, num, counted);
      ValueAtHead(data, pos);
      var past := pos + 4 + LengthAt(data, pos);
      if past < pos + bytes - counted {
        ConsumesRequestedIff(data, past, bytes, num + 1, counted + 4 + LengthAt(data, pos));
      }
    }
  }

  /** Where asking on to end takes the rest of the buffer. The length of a missing value
      is taken off what is asked for, although its bytes are read again as blocks. */
  predicate TakesAll(data: seq<Byte>, pos: nat, end: int)
    requires pos <= |data|
    decreases |data| - pos
  {
    if pos + 4 > |data| then |data| <= end
    else
      var past := pos + 4 + LengthAt(data, pos);
      if past <= |data| then (if past >= end then past == |data| else TakesAll(data, past, end))
      else if past >= end then pos + 4 == |data|
      else TakesAll(data, pos + 4, end - LengthAt(data, pos))
  }

  lemma {:induction false} TakesAllIff(data: seq<Byte>, pos: nat, bytes: int, num: nat, counted: nat)
    requires pos <= |data| && counted < bytes
    ensures EndOf(data, ReadFrom(data, pos, -1, bytes, num, counted), bytes) == |data|
            <==> TakesAll(data, pos, pos + bytes - counted)
    decreases |data| - pos
  {
    hide TlvAt, LengthAt, ReadFrom;
    if pos + 4 > |data| {
      ReadEnd(data, pos, -1, bytes, num, counted);
    } else {
      ReadStep(data, pos, -1, bytes, num, counted);
      ValueAtHead(data, pos);
      var c := counted + 4 + LengthAt(data, pos);
      if c < bytes {
        TakesAllIff(data, pos + 4 + |TlvAt(data, pos).value|, bytes, num + 1, c);
      }
    }
  }

  /** Asked for more than there is, it takes all there is as long as no value is missing. */
  lemma {:induction false} InsideTakesAll(data: seq<Byte>, pos: nat, bytes: int, num: nat, counted: nat)
    requires pos <= |data| < pos + bytes - counted && ValuesInside(data, pos, -1, bytes, num, counted)
    ensures TakesAll(data, pos, pos + bytes - counted)
    decreases |data| - pos
  {
    hide LengthAt;
    if pos + 4 <= |data| {
      InsideTakesAll(data, pos + 4 + LengthAt(data, pos), bytes, num + 1, counted + 4 + LengthAt(data, pos));
    }
  }

  /** nCurBytes is an int: on buffers of up to 64 KiB it does not overflow. */
  lemma {:induction false} CountedIsBounded(data: seq<Byte>, pos: nat, count: int, bytes: int, num: nat, counted: nat)
    requires pos <= |data|
    ensures var r := ReadFrom(data, pos, count, bytes, num, counted);
      && 4 * |r.tlvs| <= |data| - pos && r.counted <= counted + 0x1_0003 * |r.tlvs|
      && (|data| <= 0x1_0000 && counted == 0 ==> r.counted < 0x8000_0000)
    decreases |data| - pos
  {
    hide ReadFrom, TlvAt, LengthAt, Enough;
    if pos + 4 > |data| {
      ReadEnd(data, pos, count, bytes, num, counted);
    } else {
      ReadStep(data, pos, count, bytes, num, counted);
      var c := counted + 4 + LengthAt(data, pos);
      if !Enough(count, bytes, num + 1, c) {
        CountedIsBounded(data, pos + 4 + |TlvAt(data, pos).value|, count, bytes, num + 1, c);
      }
    }
  }

  // ----- the map -----

  predicate IsLast(ts: seq<Tlv>, i: nat, kind: UInt16)
    requires i < |ts|
  {
    ts[i].kind == kind && forall j :: i < j < |ts| ==> ts[j].kind != kind
  }

  /** getTLV and hasTLV after reading: a type is there exactly if a block had it, with
      the value of the last such block. */
  lemma {:induction false} LastWins(m: TlvMap, ts: seq<Tlv>, kind: UInt16)
    ensures var r := Saved(m, ts);
      if exists i :: 0 <= i < |ts| && ts[i].kind == kind then
        kind in r && exists i :: 0 <= i < |ts| && IsLast(ts, i, kind) && ts[i].value == r[kind]
      else (kind in r <==> kind in m) && (kind in m ==> r[kind] == m[kind])
    decreases |ts|
  {
    if ts != [] {
      var m1 := m[ts[0].kind := ts[0].value];
      var rest := ts[1..];
      LastWins(m1, rest, kind);
      var r := Saved(m, ts);
      if exists i :: 0 <= i < |rest| && rest[i].kind == kind {
        var i :| 0 <= i < |rest| && IsLast(rest, i, kind) && rest[i].value == r[kind];
        assert forall j :: 0 < j < |ts| ==> ts[j] == rest[j - 1];
        assert IsLast(ts, i + 1, kind);
      } else {
        assert forall j :: 0 < j < |ts| ==> ts[j] == rest[j - 1];
        assert ts[0].kind == kind ==> IsLast(ts, 0, kind) && ts[0].value == r[kind];
      }
    }
  }
}
