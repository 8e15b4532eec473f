/**
 Encoders from UCS-4 with a Maxcode beyond the last character: what they write for numbers
 that are no characters, and what becomes of that on the way back.
 */
module CodecBeyond {
  import opened CodecMachine
  import opened CodecBits
  import opened CodecSteps
  import opened CodecFormats
  import opened CodecLaws
  import opened CodecTheorems

  function FourOctets(c: bv32): (s: seq<bv8>) { [Lead4(c), Trail2(c), Trail1(c), Trail0(c)] }

  /** A conversion of one step. */
  lemma OneStep<A(!new), B(!new)>(step: Stepper<A, B>, f: seq<A>, room: nat)
    requires Bounded(step) && f != []
    ensures match step(f, room)
            case Take(n, o) => n == |f| ==> Convert(step, f, room) == Outcome(Ok, n, o)
            case Stop(w) => Convert(step, f, room) == Outcome(w, 0, [])
  {
    if step(f, room).Take? && step(f, room).used == |f| {
      ConvertTake(step, f, room);
      assert f[|f|..] == [];
    }
  }

  lemma BeyondStepUtf8(m: bv32, c: bv32)
    requires 0x10FFFF < c <= m
    ensures Ucs4ToUtf8Char(m, c, 4) == Take(1, FourOctets(c))
  {
    NotSurrogate(c);
    hide Lead4, Trail2, Trail1, Trail0, IsSurrogate;
  }

  lemma BeyondStepUtf16(e: Endian, m: bv32, c: bv32)
    requires 0x10FFFF < c <= m
    ensures Ucs4ToUtf16Char(e, m, c, 4) == Take(1, UnitOctets(e, High(c), Low(c)))
  {
    NotSurrogate(c);
    hide First, Second, High, Low, IsSurrogate;
  }

  lemma BeyondInUtf8(m: bv32, c: bv32)
    requires 0x10FFFF < c <= m
    ensures ConvertUcs4ToUtf8(m, [c], 4) == Outcome(Ok, 1, FourOctets(c))
  {
    BeyondStepUtf8(m, c);
    Ucs4ToUtf8IsCodec(m);
    hide Ucs4ToUtf8Char, FourOctets, Bounded, Monotone, Convert;
    OneStep(Ucs4ToUtf8(m), [c], 4);
  }

  lemma NotSurrogate(c: bv32)
    requires 0x10FFFF < c
    ensures !IsSurrogate(c)
  {
  }

  lemma BeyondStep(m: bv32, c: bv32)
    requires 0x10FFFF < c <= m
    ensures Utf8ToUcs4Char(m, 4, Lead4(c), Trail2(c), Trail1(c), Trail0(c), 1) ==
            if Fits4(c & 0x3FFFFF) then Take(4, [c & 0x3FFFFF]) else Stop(Error)
  {
    BeyondOctets(c);
    BeyondDecoded(c);
    hide Lead4, Trail2, Trail1, Trail0, Fits4, Decode2, Decode3, Decode4, IsTrail, IsSecondOf3, IsSecondOf4;
  }

  /**
   A number beyond the characters is written as four octets, which are read as another
   character, the number modulo 2 ^ 22, if that takes four octets, and refused otherwise.
   */
  lemma BeyondReadInUtf8(m: bv32, c: bv32)
    requires 0x10FFFF < c <= m
    ensures var w := ConvertUcs4ToUtf8(m, [c], 4);
            && w.result == Ok && w.consumed == 1 && |w.out| == 4
            && ConvertUtf8ToUcs4(m, w.out, 1) ==
               if Fits4(c & 0x3FFFFF) then Outcome(Ok, 4, [c & 0x3FFFFF]) else Outcome(Error, 0, [])
  {
    var s := FourOctets(c);
    assert Octet(s, 0) == s[0] && Octet(s, 1) == s[1] && Octet(s, 2) == s[2] && Octet(s, 3) == s[3];
    BeyondInUtf8(m, c);
    BeyondStep(m, c);
    Utf8ToUcs4IsCodec(m);
    hide Utf8ToUcs4Char, Lead4, Trail2, Trail1, Trail0, Octet, Fits4, ConvertUcs4ToUtf8, Bounded, Monotone, Convert;
    OneStep(Utf8ToUcs4(m), s, 1);
  }

  /** Up to 0x1FFFFF such numbers are refused, and 0x410000 becomes 0x10000. */
  lemma BeyondExamplesInUtf8(m: bv32, c: bv32)
    requires c <= m
    ensures 0x10FFFF < c <= 0x1FFFFF ==>
              ConvertUtf8ToUcs4(m, ConvertUcs4ToUtf8(m, [c], 4).out, 1) == Outcome(Error, 0, [])
    ensures c == 0x410000 ==>
              ConvertUtf8ToUcs4(m, ConvertUcs4ToUtf8(m, [c], 4).out, 1) == Outcome(Ok, 4, [0x10000])
  {
    if 0x10FFFF < c {
      BeyondReadInUtf8(m, c);
      hide ConvertUcs4ToUtf8, ConvertUtf8ToUcs4;
    }
  }

  /** UCS-4 survives the way to UTF-8 and back exactly when Maxcode is that of a character. */
  lemma Ucs4Utf8RoundTripExactly(m: bv32)
    ensures m <= 0x10FFFF <==>
            forall f: seq<bv32>, room: nat ::
              var r := ConvertUcs4ToUtf8(m, f, room);
              ConvertUtf8ToUcs4(m, r.out, |f|) == Outcome(Ok, |r.out|, f[..r.consumed])
  {
    hide ConvertUtf8ToUcs4;
    if m <= 0x10FFFF {
      forall f: seq<bv32>, room: nat
        ensures var r := ConvertUcs4ToUtf8(m, f, room);
                ConvertUtf8ToUcs4(m, r.out, |f|) == Outcome(Ok, |r.out|, f[..r.consumed])
      {
        Ucs4Utf8RoundTrip(m, f, [], room, |f|);
      }
    } else {
      BeyondReadInUtf8(m, BEYOND);
      var r := ConvertUcs4ToUtf8(m, [BEYOND], 4);
    }
  }

  function UnitOctets(e: Endian, w1: bv32, w2: bv32): (s: seq<bv8>) {
    [First(e, w1), Second(e, w1), First(e, w2), Second(e, w2)]
  }

  lemma BeyondInUtf16(e: Endian, m: bv32, c: bv32)
    requires 0x10FFFF < c <= m
    ensures ConvertUcs4ToUtf16(e, m, [c], 4) == Outcome(Ok, 1, UnitOctets(e, High(c), Low(c)))
  {
    BeyondStepUtf16(e, m, c);
    Ucs4ToUtf16IsCodec(e, m);
    hide Ucs4ToUtf16Char, UnitOctets, Bounded, Monotone, Convert;
    OneStep(Ucs4ToUtf16(e, m), [c], 4);
  }

  /** What the decoder makes of two units. */
  lemma TwoUnits(e: Endian, m: bv32, w1: bv32, w2: bv32, room: nat)
    requires w1 < 0x10000 && w2 < 0x10000
    ensures Utf16ToUcs4(e, m)(UnitOctets(e, w1, w2), room) == Utf16ToUcs4Char(m, 4, w1, w2, room)
  {
    JoinSplit(e, w1);
    JoinSplit(e, w2);
    hide Utf16ToUcs4Char, Join, First, Second;
    var s := UnitOctets(e, w1, w2);
    assert Octet(s, 0) == s[0] && Octet(s, 1) == s[1] && Octet(s, 2) == s[2] && Octet(s, 3) == s[3];
  }

  lemma OneUnit(e: Endian, m: bv32, w: bv32, room: nat)
    requires w < 0x10000
    ensures Utf16ToUcs4(e, m)([First(e, w), Second(e, w)], room) == Utf16ToUcs4Char(m, 2, w, Join(e, 0, 0), room)
  {
    JoinSplit(e, w);
    hide Utf16ToUcs4Char, Join, First, Second;
    var s := [First(e, w), Second(e, w)];
    assert Octet(s, 0) == s[0] && Octet(s, 1) == s[1];
  }

  lemma UnitKind(w: bv32)
    requires w < 0x10000
    ensures IsHighSurrogate(w) <==> 0xD800 <= w < 0xDC00
    ensures IsLowSurrogate(w) <==> 0xDC00 <= w < 0xE000
    ensures 0xFFC0 <= w ==> IsScalar(w)
  {
  }

  lemma LowFirst(m: bv32, n: nat, w1: bv32, w2: bv32, room: nat)
    requires IsLowSurrogate(w1) && 2 <= n
    ensures Utf16ToUcs4Char(m, n, w1, w2, room) == Stop(if room == 0 then Partial else Error)
  {
  }

  /** The first unit, by what the number is modulo 2 ^ 21. */
  lemma BeyondHigh(c: bv32)
    requires 0x10FFFF < c
    ensures var d, high := c & 0x1FFFFF, Low16(High(c)) as bv32;
            && high < 0x10000 && d <= c
            && (Fits4(d) ==> ValidPair(high, Low(c)) && OfPair(high, Low(c)) == d)
            && (d > 0x10FFFF ==> 0xDC00 <= high < 0xE000)
            && (d < 0x10000 ==> 0xFFC0 <= high)
  {
    BeyondUnits(c);
    BeyondRest(c);
    UnitBack(Low16(High(c)));
    hide High, Low, Low16, OfPair, ValidPair;
    if Fits4(c & 0x1FFFFF) {
      PairOf(c & 0x1FFFFF);
    }
  }

  lemma BeyondPair(m: bv32, c: bv32, w2: bv32, room: nat)
    requires 0x10FFFF < c <= m && 1 <= room
    ensures var d, high := c & 0x1FFFFF, Low16(High(c)) as bv32;
            && (Fits4(d) ==> Utf16ToUcs4Char(m, 4, high, Low(c), room) == Take(4, [d]))
            && (d > 0x10FFFF ==> Utf16ToUcs4Char(m, 4, high, Low(c), room) == Stop(Error))
            && (d < 0x10000 ==> Utf16ToUcs4Char(m, 4, high, Low(c), room) == Take(2, [high]))
            && Utf16ToUcs4Char(m, 2, Low(c), w2, room - 1) == Stop(if room == 1 then Partial else Error)
  {
    var d, high := c & 0x1FFFFF, Low16(High(c)) as bv32;
    BeyondHigh(c);
    LowBits(c);
    LowFirst(m, 2, Low(c), w2, room - 1);
    UnitKind(high);
    hide High, Low, Low16, IsHighSurrogate, IsLowSurrogate, OfPair, IsScalar, Utf16ToUcs4Char;
    if Fits4(d) {
      Utf16ToUcs4Pair(m, 4, high, Low(c), room);
    } else if d > 0x10FFFF {
      LowFirst(m, 4, high, Low(c), room);
    } else {
      Utf16ToUcs4Single(m, 4, high, Low(c), room);
    }
  }

  lemma BeyondRest(c: bv32)
    requires 0x10FFFF < c
    ensures c & 0x1FFFFF <= c
  {
  }

  lemma ReadUnits(step: Stepper<bv8, bv32>, s: seq<bv8>, room: nat, d: bv32, high: bv32, why: Result)
    requires Bounded(step) && |s| == 4 && 1 <= room
    ensures step(s, room) == Take(4, [d]) ==> Convert(step, s, room) == Outcome(Ok, 4, [d])
    ensures step(s, room) == Stop(Error) ==> Convert(step, s, room) == Outcome(Error, 0, [])
    ensures step(s, room) == Take(2, [high]) && step(s[2..], room - 1) == Stop(why) ==>
              Convert(step, s, room) == Outcome(why, 2, [high])
  {
  }

  /**
   A number beyond the characters is written as two units, which are read as another
   character, the number modulo 2 ^ 21, if that takes two units; otherwise the first or the
   second of them is refused.
   */
  lemma BeyondReadInUtf16(e: Endian, m: bv32, c: bv32, room: nat)
    requires 0x10FFFF < c <= m && 1 <= room
    ensures var w, d := ConvertUcs4ToUtf16(e, m, [c], 4), c & 0x1FFFFF;
            && w.result == Ok && w.consumed == 1 && |w.out| == 4
            && ConvertUtf16ToUcs4(e, m, w.out, room) ==
               if Fits4(d) then Outcome(Ok, 4, [d])
               else if d > 0x10FFFF then Outcome(Error, 0, [])
               else Outcome(if room == 1 then Partial else Error, 2, [Low16(High(c)) as bv32])
  {
    var high, low := Low16(High(c)) as bv32, Low(c);
    BeyondInUtf16(e, m, c);
    UnitsWritten(e, c);
    LowBits(c);
    UnitBack(Low16(High(c)));
    BeyondPair(m, c, Join(e, 0, 0), room);
    TwoUnits(e, m, high, low, room);
    OneUnit(e, m, low, room - 1);
    Utf16ToUcs4IsCodec(e, m);
    hide First, Second, High, Low, Low16, Utf16ToUcs4Char, ConvertUcs4ToUtf16, Utf16ToUcs4, Bounded, Monotone, Convert;
    var s := UnitOctets(e, high, low);
    assert s[2..] == [First(e, low), Second(e, low)];
    ReadUnits(Utf16ToUcs4(e, m), s, room, c & 0x1FFFFF, high, if room == 1 then Partial else Error);
  }

  lemma UnitsWritten(e: Endian, c: bv32)
    ensures UnitOctets(e, High(c), Low(c)) == UnitOctets(e, Low16(High(c)) as bv32, Low(c))
  {
    LowerUnit(e, High(c));
    hide First, Second, High, Low, Low16;
  }

  /** Up to 0x1FFFFF such numbers are refused, and 0x210000 becomes 0x10000. */
  lemma BeyondExamplesInUtf16(e: Endian, m: bv32, c: bv32)
    requires c <= m
    ensures 0x10FFFF < c <= 0x1FFFFF ==>
              ConvertUtf16ToUcs4(e, m, ConvertUcs4ToUtf16(e, m, [c], 4).out, 1) == Outcome(Error, 0, [])
    ensures c == 0x210000 ==>
              ConvertUtf16ToUcs4(e, m, ConvertUcs4ToUtf16(e, m, [c], 4).out, 1) == Outcome(Ok, 4, [0x10000])
  {
    if 0x10FFFF < c {
      BeyondReadInUtf16(e, m, c, 1);
      hide ConvertUcs4ToUtf16, ConvertUtf16ToUcs4;
    }
  }

  /** And the same for UTF-16 octets of either order. */
  lemma Ucs4Utf16RoundTripExactly(e: Endian, m: bv32)
    ensures m <= 0x10FFFF <==>
            forall f: seq<bv32>, room: nat ::
              var r := ConvertUcs4ToUtf16(e, m, f, room);
              ConvertUtf16ToUcs4(e, m, r.out, |f|) == Outcome(Ok, |r.out|, f[..r.consumed])
  {
    hide ConvertUtf16ToUcs4;
    if m <= 0x10FFFF {
      forall f: seq<bv32>, room: nat
        ensures var r := ConvertUcs4ToUtf16(e, m, f, room);
                ConvertUtf16ToUcs4(e, m, r.out, |f|) == Outcome(Ok, |r.out|, f[..r.consumed])
      {
        Ucs4Utf16RoundTrip(e, m, f, [], room, |f|);
      }
    } else {
      BeyondReadInUtf16(e, m, BEYOND, 1);
      var r := ConvertUcs4ToUtf16(e, m, [BEYOND], 4);
    }
  }
}
