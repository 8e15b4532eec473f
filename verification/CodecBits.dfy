/**
 The bit arithmetic of the converters of libcxx/src/locale.cpp, on single code units,
 and why the formulas the converters use for the two directions belong together.
 Every formula is computed in 32 bits, like the C++ expressions, and cut to its width.
 */
module CodecBits {
  datatype Endian = Big | Little

  function Low8(x: bv32): (r: bv8) { (x & 0xFF) as bv8 }

  function Low16(x: bv32): (r: bv16) { (x & 0xFFFF) as bv16 }

  // The octets of a UTF-8 sequence, as the encoders compute them.

  function Lead2(c: bv32): (r: bv8) { Low8(0xC0 | (c >> 6)) }

  function Lead3(c: bv32): (r: bv8) { Low8(0xE0 | (c >> 12)) }

  function Lead4(c: bv32): (r: bv8) { Low8(0xF0 | (c >> 18)) }

  function Trail0(c: bv32): (r: bv8) { Low8(0x80 | (c & 0x3F)) }

  function Trail1(c: bv32): (r: bv8) { Low8(0x80 | ((c & 0xFC0) >> 6)) }

  function Trail2(c: bv32): (r: bv8) { Low8(0x80 | ((c & 0x3F000) >> 12)) }

  // What the decoders make of a UTF-8 sequence.

  predicate IsTrail(b: bv8) { b & 0xC0 == 0x80 }

  /** The second octet of a three-octet sequence: the switch on the first one. */
  predicate IsSecondOf3(c1: bv8, c2: bv8) {
    if c1 == 0xE0 then c2 & 0xE0 == 0xA0
    else if c1 == 0xED then c2 & 0xE0 == 0x80
    else IsTrail(c2)
  }

  predicate IsSecondOf4(c1: bv8, c2: bv8) {
    if c1 == 0xF0 then 0x90 <= c2 <= 0xBF
    else if c1 == 0xF4 then c2 & 0xF0 == 0x80
    else IsTrail(c2)
  }

  function Decode2(c1: bv8, c2: bv8): (r: bv32) { (((c1 & 0x1F) as bv32) << 6) | ((c2 & 0x3F) as bv32) }

  function Decode3(c1: bv8, c2: bv8, c3: bv8): (r: bv32) {
    (((c1 & 0x0F) as bv32) << 12) | (((c2 & 0x3F) as bv32) << 6) | ((c3 & 0x3F) as bv32)
  }

  function Decode4(c1: bv8, c2: bv8, c3: bv8, c4: bv8): (r: bv32) {
    (((c1 & 0x07) as bv32) << 18) | (((c2 & 0x3F) as bv32) << 12) | (((c3 & 0x3F) as bv32) << 6) | ((c4 & 0x3F) as bv32)
  }

  // UTF-16 code units.

  predicate IsSurrogate(c: bv32) { c & 0xFFFFF800 == 0xD800 }

  predicate IsLowSurrogate(w: bv32) { w & 0xFC00 == 0xDC00 }

  predicate IsHighSurrogate(w: bv32) { w & 0xFC00 == 0xD800 }

  /** The pair of units for a character, as the encoders from UCS-4 compute it. */
  function High(c: bv32): (r: bv32) { 0xD800 | ((((c & 0x1F0000) >> 16) - 1) << 6) | ((c & 0xFC00) >> 10) }

  function Low(c: bv32): (r: bv32) { 0xDC00 | (c & 0x3FF) }

  /** The character of a pair of units, as the decoders from UTF-16 octets compute it. */
  function OfPair(w1: bv32, w2: bv32): (r: bv32) {
    ((((w1 & 0x3C0) >> 6) + 1) << 16) | ((w1 & 0x3F) << 10) | (w2 & 0x3FF)
  }

  /** The same character as utf16_to_utf8 computes it for its test against Maxcode. */
  function OfPairSum(w1: bv32, w2: bv32): (r: bv32) {
    ((((w1 & 0x3C0) >> 6) + 1) << 16) + ((w1 & 0x3F) << 10) + (w2 & 0x3FF)
  }

  // The octets utf16_to_utf8 makes straight from a pair of units.

  function Plane(w1: bv32): (r: bv32) { ((w1 & 0x3C0) >> 6) + 1 }

  function PairOctet1(w1: bv32): (r: bv8) { Low8(0xF0 | (Plane(w1) >> 2)) }

  function PairOctet2(w1: bv32): (r: bv8) { Low8(0x80 | ((Plane(w1) & 0x03) << 4) | ((w1 & 0x3C) >> 2)) }

  function PairOctet3(w1: bv32, w2: bv32): (r: bv8) { Low8(0x80 | ((w1 & 0x03) << 4) | ((w2 & 0x3C0) >> 6)) }

  // The units utf8_to_utf16 makes straight from four octets.

  function HighOfOctets(c1: bv8, c2: bv8, c3: bv8): (r: bv32) {
    0xD800 | ((((((c1 & 0x07) as bv32) << 2) | (((c2 & 0x30) as bv32) >> 4)) - 1) << 6)
    | (((c2 & 0x0F) as bv32) << 2) | (((c3 & 0x30) as bv32) >> 4)
  }

  function LowOfOctets(c3: bv8, c4: bv8): (r: bv32) { 0xDC00 | (((c3 & 0x0F) as bv32) << 6) | ((c4 & 0x3F) as bv32) }

  // The octets of a 16-bit unit in either order.

  function First(e: Endian, w: bv32): (r: bv8) { if e == Big then Low8(w >> 8) else Low8(w) }

  function Second(e: Endian, w: bv32): (r: bv8) { if e == Big then Low8(w) else Low8(w >> 8) }

  function Join(e: Endian, a: bv8, b: bv8): (r: bv32) {
    if e == Big then ((a as bv32) << 8) | (b as bv32) else ((b as bv32) << 8) | (a as bv32)
  }

  // The characters that are encoded in one, two, three and four octets.

  predicate Fits1(c: bv32) { c < 0x80 }

  predicate Fits2(c: bv32) { 0x80 <= c < 0x800 }

  predicate Fits3(c: bv32) { 0x800 <= c < 0x10000 && !IsSurrogate(c) }

  predicate Fits4(c: bv32) { 0x10000 <= c <= 0x10FFFF }

  // The sequences the decoders accept.

  predicate Valid2(c1: bv8, c2: bv8) { 0xC2 <= c1 < 0xE0 && IsTrail(c2) }

  predicate Valid3(c1: bv8, c2: bv8, c3: bv8) { 0xE0 <= c1 < 0xF0 && IsSecondOf3(c1, c2) && IsTrail(c3) }

  predicate Valid4(c1: bv8, c2: bv8, c3: bv8, c4: bv8) {
    0xF0 <= c1 < 0xF5 && IsSecondOf4(c1, c2) && IsTrail(c3) && IsTrail(c4)
  }

  predicate ValidPair(w1: bv32, w2: bv32) { 0xD800 <= w1 < 0xDC00 && IsLowSurrogate(w2) && w2 < 0x10000 }

  lemma Octet1(c: bv32)
    requires Fits1(c)
    ensures Low8(c) < 0x80 && Low8(c) as bv32 == c
  {
  }

  lemma Octet1Back(b: bv8)
    requires b < 0x80
    ensures Fits1(b as bv32) && Low8(b as bv32) == b
  {
  }

  lemma Encoded2(c: bv32)
    requires Fits2(c)
    ensures Valid2(Lead2(c), Trail0(c)) && Decode2(Lead2(c), Trail0(c)) == c
  {
  }

  lemma Decoded2(c1: bv8, c2: bv8)
    requires Valid2(c1, c2)
    ensures var c := Decode2(c1, c2); Fits2(c) && Lead2(c) == c1 && Trail0(c) == c2
  {
  }

  lemma Trail0Bits(c: bv32)
    ensures IsTrail(Trail0(c)) && (Trail0(c) & 0x3F) as bv32 == c & 0x3F
  {
  }

  lemma Trail1Bits(c: bv32)
    ensures IsTrail(Trail1(c)) && (Trail1(c) & 0x3F) as bv32 == (c & 0xFC0) >> 6
  {
  }

  lemma Trail2Bits(c: bv32)
    ensures IsTrail(Trail2(c)) && (Trail2(c) & 0x3F) as bv32 == (c & 0x3F000) >> 12
  {
  }

  lemma Lead3Bits(c: bv32)
    requires c < 0x10000
    ensures (Lead3(c) & 0x0F) as bv32 == c >> 12 && Lead3(c) & 0xF0 == 0xE0
  {
  }

  lemma Lead4Bits(c: bv32)
    requires Fits4(c)
    ensures (Lead4(c) & 0x07) as bv32 == c >> 18 && 0xF0 <= Lead4(c) < 0xF5
  {
  }

  lemma Parts3(c: bv32)
    requires c < 0x10000
    ensures ((c >> 12) << 12) | (((c & 0xFC0) >> 6) << 6) | (c & 0x3F) == c
  {
  }

  lemma Parts4(c: bv32)
    requires c < 0x200000
    ensures ((c >> 18) << 18) | (((c & 0x3F000) >> 12) << 12) | (((c & 0xFC0) >> 6) << 6) | (c & 0x3F) == c
  {
  }

  lemma Second3(c: bv32)
    requires Fits3(c)
    ensures IsSecondOf3(Lead3(c), Trail1(c))
  {
  }

  lemma Second4(c: bv32)
    requires Fits4(c)
    ensures IsSecondOf4(Lead4(c), Trail2(c))
  {
  }

  lemma Encoded3(c: bv32)
    requires Fits3(c)
    ensures Valid3(Lead3(c), Trail1(c), Trail0(c)) && Decode3(Lead3(c), Trail1(c), Trail0(c)) == c
  {
    Trail0Bits(c);
    Trail1Bits(c);
    Lead3Bits(c);
    Second3(c);
    Parts3(c);
    hide Lead3, Trail1, Trail0, IsSecondOf3, IsSurrogate;
  }

  lemma Encoded4(c: bv32)
    requires Fits4(c)
    ensures Valid4(Lead4(c), Trail2(c), Trail1(c), Trail0(c))
    ensures Decode4(Lead4(c), Trail2(c), Trail1(c), Trail0(c)) == c
  {
    Trail0Bits(c);
    Trail1Bits(c);
    Trail2Bits(c);
    Lead4Bits(c);
    Second4(c);
    Decode4Parts(c, Lead4(c), Trail2(c), Trail1(c), Trail0(c));
    hide Lead4, Trail2, Trail1, Trail0, IsSecondOf4, IsTrail, Decode4, Fits4;
  }

  lemma Decode4Parts(c: bv32, c1: bv8, c2: bv8, c3: bv8, c4: bv8)
    requires Fits4(c)
    requires (c1 & 0x07) as bv32 == c >> 18 && (c2 & 0x3F) as bv32 == (c & 0x3F000) >> 12
    requires (c3 & 0x3F) as bv32 == (c & 0xFC0) >> 6 && (c4 & 0x3F) as bv32 == c & 0x3F
    ensures Decode4(c1, c2, c3, c4) == c
  {
    Parts4(c);
    hide Fits4;
  }

  lemma Decoded3(c1: bv8, c2: bv8, c3: bv8)
    requires Valid3(c1, c2, c3)
    ensures var c := Decode3(c1, c2, c3); Fits3(c) && Lead3(c) == c1 && Trail1(c) == c2 && Trail0(c) == c3
  {
  }

  lemma Decoded4(c1: bv8, c2: bv8, c3: bv8, c4: bv8)
    requires Valid4(c1, c2, c3, c4)
    ensures var c := Decode4(c1, c2, c3, c4);
            Fits4(c) && Lead4(c) == c1 && Trail2(c) == c2 && Trail1(c) == c3 && Trail0(c) == c4
  {
  }

  /** Cutting a character below 0x10000 to a unit loses nothing. */
  lemma UnitOf(c: bv32)
    requires c < 0x10000
    ensures Low16(c) as bv32 == c
  {
  }

  lemma UnitBack(w: bv16)
    ensures w as bv32 < 0x10000 && Low16(w as bv32) == w
  {
  }

  lemma HighBits(c: bv32)
    requires Fits4(c)
    ensures 0xD800 <= High(c) < 0xDC00
    ensures (High(c) & 0x3C0) >> 6 == (c >> 16) - 1 && High(c) & 0x3F == (c & 0xFC00) >> 10
  {
  }

  lemma LowBits(c: bv32)
    ensures IsLowSurrogate(Low(c)) && Low(c) < 0x10000 && Low(c) & 0x3FF == c & 0x3FF
  {
  }

  lemma PartsOfPair(c: bv32)
    requires Fits4(c)
    ensures ((((c >> 16) - 1) + 1) << 16) | (((c & 0xFC00) >> 10) << 10) | (c & 0x3FF) == c
  {
  }

  lemma PairOf(c: bv32)
    requires Fits4(c)
    ensures ValidPair(High(c), Low(c)) && OfPair(High(c), Low(c)) == c
  {
    HighBits(c);
    LowBits(c);
    PartsOfPair(c);
    hide High, Low, Fits4;
  }

  lemma PairBack(w1: bv32, w2: bv32)
    requires ValidPair(w1, w2)
    ensures var c := OfPair(w1, w2); Fits4(c) && High(c) == w1 && Low(c) == w2
  {
  }

  /** The sum and the disjunction of the parts of a pair are the same number. */
  lemma PairSum(w1: bv32, w2: bv32)
    ensures OfPairSum(w1, w2) == OfPair(w1, w2)
  {
    PairSumParts(((w1 & 0x3C0) >> 6) + 1, w1 & 0x3F, w2 & 0x3FF);
  }

  lemma PairSumParts(p: bv32, q: bv32, r: bv32)
    requires p < 0x20 && q < 0x40 && r < 0x400
    ensures (p << 16) + (q << 10) + r == (p << 16) | (q << 10) | r
  {
  }

  /** utf16_to_utf8's octets of a pair are the octets of the character of the pair. */
  lemma PairOctets(w1: bv32, w2: bv32)
    requires ValidPair(w1, w2)
    ensures var c := OfPair(w1, w2);
            && PairOctet1(w1) == Lead4(c) && PairOctet2(w1) == Trail2(c)
            && PairOctet3(w1, w2) == Trail1(c) && Trail0(w2) == Trail0(c)
  {
  }

  /** utf8_to_utf16's units of four octets are the pair of the character of the octets. */
  lemma OctetPair(c1: bv8, c2: bv8, c3: bv8, c4: bv8)
    requires Valid4(c1, c2, c3, c4)
    ensures var c := Decode4(c1, c2, c3, c4); HighOfOctets(c1, c2, c3) == High(c) && LowOfOctets(c3, c4) == Low(c)
  {
  }

  lemma OctetsOfUnit(w: bv32)
    requires w < 0x10000
    ensures Low8(w >> 8) as bv32 == w >> 8 && Low8(w) as bv32 == w & 0xFF
  {
  }

  lemma PartsOfUnit(w: bv32)
    requires w < 0x10000
    ensures ((w >> 8) << 8) | (w & 0xFF) == w
  {
  }

  lemma JoinOctets(w: bv32, high: bv8, low: bv8)
    requires w < 0x10000 && high as bv32 == w >> 8 && low as bv32 == w & 0xFF
    ensures ((high as bv32) << 8) | (low as bv32) == w
  {
    PartsOfUnit(w);
  }

  lemma JoinInOrder(e: Endian, high: bv8, low: bv8)
    ensures Join(e, if e == Big then high else low, if e == Big then low else high) ==
            ((high as bv32) << 8) | (low as bv32)
  {
  }

  lemma JoinSplit(e: Endian, w: bv32)
    requires w < 0x10000
    ensures Join(e, First(e, w), Second(e, w)) == w
  {
    hide Low8, Join;
    OctetsOfUnit(w);
    JoinOctets(w, Low8(w >> 8), Low8(w));
    JoinInOrder(e, Low8(w >> 8), Low8(w));
  }

  lemma SplitJoin(e: Endian, a: bv8, b: bv8)
    ensures Join(e, a, b) < 0x10000 && First(e, Join(e, a, b)) == a && Second(e, Join(e, a, b)) == b
  {
  }

  // Numbers beyond the characters, as the encoders from UCS-4 write them.

  lemma BeyondOctets(c: bv32)
    requires 0x10FFFF < c
    ensures Valid4(Lead4(c), Trail2(c), Trail1(c), Trail0(c)) <==> Fits4(c & 0x3FFFFF)
    ensures 0xF0 <= Lead4(c) && c & 0x3FFFFF <= c
  {
  }

  lemma BeyondDecoded(c: bv32)
    ensures Fits4(c & 0x3FFFFF) ==> Decode4(Lead4(c), Trail2(c), Trail1(c), Trail0(c)) == c & 0x3FFFFF
  {
  }

  lemma BeyondUnits(c: bv32)
    requires 0x10FFFF < c
    ensures var d, high := c & 0x1FFFFF, Low16(High(c));
            if d < 0x10000 then 0xFFC0 <= high
            else if d <= 0x10FFFF then high as bv32 == High(d) && Low(c) == Low(d)
            else 0xDC00 <= high < 0xE000
  {
  }

  /** Only the lower sixteen bits of a unit are written. */
  lemma LowerUnit(e: Endian, w: bv32)
    ensures First(e, w) == First(e, Low16(w) as bv32) && Second(e, w) == Second(e, Low16(w) as bv32)
  {
    LowerOctets(w);
    hide Low8, Low16;
  }

  lemma LowerOctets(w: bv32)
    ensures Low8(w >> 8) == Low8((Low16(w) as bv32) >> 8) && Low8(w) == Low8(Low16(w) as bv32)
  {
  }
}
