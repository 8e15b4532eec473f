/**
 The seven length functions of libcxx/src/locale.cpp.  Each is written out separately
 from its converter in the source, and returns how many octets the converter would use
 up if it had room for `mx` units.  A step returns the octets and the units it counts,
 no octets at all where the source leaves the loop.
 */
module CodecLengths {
  import opened CodecMachine
  import opened CodecBits
  import opened CodecSteps
  import opened CodecLaws
  import opened CodecBuffers

  datatype Count = Count(octets: nat, units: nat)

  /** The step counts what the converter's step takes. */
  ghost predicate Counts<B>(k: Count, s: Step<B>) {
    match s
    case Take(n, o) => n == k.octets && |o| == k.units
    case Stop(_) => k.octets == 0
  }

  /** utf8_to_ucs4_length */
  function Utf8ToUcs4Count(m: bv32, n: nat, c1: bv8, c2: bv8, c3: bv8, c4: bv8): (r: Count) {
    if c1 < 0x80 then (if c1 as bv32 > m then Count(0, 0) else Count(1, 1))
    else if c1 < 0xC2 then Count(0, 0)
    else if c1 < 0xE0 then
      if n < 2 || !IsTrail(c2) then Count(0, 0)
      else if Decode2(c1, c2) > m then Count(0, 0)
      else Count(2, 1)
    else if c1 < 0xF0 then
      if n < 3 then Count(0, 0)
      else if !IsSecondOf3(c1, c2) then Count(0, 0)
      else if !IsTrail(c3) then Count(0, 0)
      else if Decode3(c1, c2, c3) > m then Count(0, 0)
      else Count(3, 1)
    else if c1 < 0xF5 then
      if n < 4 then Count(0, 0)
      else if !IsSecondOf4(c1, c2) then Count(0, 0)
      else if !IsTrail(c3) || !IsTrail(c4) then Count(0, 0)
      else if Decode4(c1, c2, c3, c4) > m then Count(0, 0)
      else Count(4, 1)
    else Count(0, 0)
  }

  /** utf8_to_utf16_length, where the room for a pair is looked at before its octets */
  function Utf8ToUtf16Count(m: bv32, n: nat, c1: bv8, c2: bv8, c3: bv8, c4: bv8, left: nat): (r: Count) {
    if c1 as bv32 > m then Count(0, 0)
    else if c1 < 0x80 then Count(1, 1)
    else if c1 < 0xC2 then Count(0, 0)
    else if c1 < 0xE0 then
      if n < 2 || !IsTrail(c2) then Count(0, 0)
      else if Decode2(c1, c2) > m then Count(0, 0)
      else Count(2, 1)
    else if c1 < 0xF0 then
      if n < 3 then Count(0, 0)
      else if !IsSecondOf3(c1, c2) then Count(0, 0)
      else if !IsTrail(c3) then Count(0, 0)
      else if Decode3(c1, c2, c3) > m then Count(0, 0)
      else Count(3, 1)
    else if c1 < 0xF5 then
      if n < 4 || left < 2 then Count(0, 0)
      else if !IsSecondOf4(c1, c2) then Count(0, 0)
      else if !IsTrail(c3) || !IsTrail(c4) then Count(0, 0)
      else if Decode4(c1, c2, c3, c4) > m then Count(0, 0)
      else Count(4, 2)
    else Count(0, 0)
  }

  /** utf8_to_ucs2_length */
  function Utf8ToUcs2Count(m: bv32, n: nat, c1: bv8, c2: bv8, c3: bv8): (r: Count) {
    if c1 < 0x80 then (if c1 as bv32 > m then Count(0, 0) else Count(1, 1))
    else if c1 < 0xC2 then Count(0, 0)
    else if c1 < 0xE0 then
      if n < 2 || !IsTrail(c2) then Count(0, 0)
      else if Decode2(c1, c2) > m then Count(0, 0)
      else Count(2, 1)
    else if c1 < 0xF0 then
      if n < 3 then Count(0, 0)
      else if !IsSecondOf3(c1, c2) then Count(0, 0)
      else if !IsTrail(c3) then Count(0, 0)
      else if Decode3(c1, c2, c3) > m then Count(0, 0)
      else Count(3, 1)
    else Count(0, 0)
  }

  /** utf16be_to_ucs4_length and utf16le_to_ucs4_length */
  function Utf16ToUcs4Count(m: bv32, n: nat, w1: bv32, w2: bv32): (r: Count) {
    if IsLowSurrogate(w1) then Count(0, 0)
    else if !IsHighSurrogate(w1) then (if w1 > m then Count(0, 0) else Count(2, 1))
    else if n < 4 then Count(0, 0)
    else if !IsLowSurrogate(w2) then Count(0, 0)
    else if OfPair(w1, w2) > m then Count(0, 0)
    else Count(4, 1)
  }

  /** utf16be_to_ucs2_length and utf16le_to_ucs2_length */
  function Utf16ToUcs2Count(m: bv32, w: bv32): (r: Count) {
    if IsSurrogate(w) || w > m then Count(0, 0) else Count(2, 1)
  }

  lemma Utf8ToUcs4CountsStep(m: bv32, n: nat, c1: bv8, c2: bv8, c3: bv8, c4: bv8, left: nat)
    requires 0 < n && 0 < left
    ensures Counts(Utf8ToUcs4Count(m, n, c1, c2, c3, c4), Utf8ToUcs4Char(m, n, c1, c2, c3, c4, left))
  {
  }

  lemma Utf8ToUtf16CountsStep(m: bv32, n: nat, c1: bv8, c2: bv8, c3: bv8, c4: bv8, left: nat)
    requires 0 < n && 0 < left
    ensures Counts(Utf8ToUtf16Count(m, n, c1, c2, c3, c4, left), Utf8ToUtf16Char(m, n, c1, c2, c3, c4, left))
  {
  }

  lemma Utf8ToUcs2CountsStep(m: bv32, n: nat, c1: bv8, c2: bv8, c3: bv8, left: nat)
    requires 0 < n && 0 < left
    ensures Counts(Utf8ToUcs2Count(m, n, c1, c2, c3), Utf8ToUcs2Char(m, n, c1, c2, c3, left))
  {
  }

  lemma Utf16ToUcs4CountsStep(m: bv32, n: nat, w1: bv32, w2: bv32, left: nat)
    requires 2 <= n && 0 < left
    ensures Counts(Utf16ToUcs4Count(m, n, w1, w2), Utf16ToUcs4Char(m, n, w1, w2, left))
  {
  }

  lemma Utf16ToUcs2CountsStep(m: bv32, n: nat, w: bv32, left: nat)
    requires 2 <= n && 0 < left
    ensures Counts(Utf16ToUcs2Count(m, w), Utf16ToUcs2Char(m, n, w, left))
  {
  }

  /** The octets counted so far, with what the rest of the conversion would use up. */
  ghost predicate Counting<B(!new)>(total: nat, step: Stepper<bv8, B>, frm: seq<bv8>, i: nat, left: nat)
    requires Bounded(step)
  {
    i <= |frm| && total == i + Convert(step, frm[i..], left).consumed
  }

  lemma CountingOn<B(!new)>(total: nat, step: Stepper<bv8, B>, frm: seq<bv8>, i: nat, left: nat, k: Count)
    requires Bounded(step) && Counting(total, step, frm, i, left) && i < |frm| && Counts(k, step(frm[i..], left))
    ensures k.octets == 0 ==> total == i
    ensures k.octets > 0 ==>
              0 < k.units <= left && i + k.octets <= |frm| && Counting(total, step, frm, i + k.octets, left - k.units)
  {
  }

  lemma CountingEnds<B(!new)>(total: nat, step: Stepper<bv8, B>, frm: seq<bv8>, i: nat, left: nat)
    requires Bounded(step) && Counting(total, step, frm, i, left)
    requires i == |frm| || step(frm[i..], left).Stop?
    ensures total == i
  {
  }

  ghost function Utf8ToUcs4Uses(m: bv32, consume: bool, frm: seq<bv8>, mx: nat): (r: nat) {
    Utf8ToUcs4IsCodec(m);
    Decoded(Utf8ToUcs4(m), UTF8_HEADER, consume, frm, mx).consumed
  }

  lemma Utf8ToUcs4Full(m: bv32, frm: seq<bv8>, i: nat, left: nat)
    requires i <= |frm| && (i == |frm| || left == 0)
    ensures i == |frm| || Utf8ToUcs4(m)(frm[i..], left).Stop?
  {
  }

  /** utf8_to_ucs4_length */
  method Utf8ToUcs4Length(m: bv32, consume: bool, frm: seq<bv8>, mx: nat) returns (r: nat)
    ensures r == Utf8ToUcs4Uses(m, consume, frm, mx)
  {
    Utf8ToUcs4IsCodec(m);
    hide Bounded, Monotone, Convert, Utf8ToUcs4Count, Utf8ToUcs4Char, Octet, Counts, Join;
    ghost var step, total := Utf8ToUcs4(m), Utf8ToUcs4Uses(m, consume, frm, mx);
    var i, units := HeaderSize(UTF8_HEADER, consume, frm), 0;
    while i < |frm| && units < mx
      invariant i <= |frm| && units <= mx && Counting(total, step, frm, i, mx - units)
      decreases |frm| - i
    {
      var f := frm[i..];
      var c1, c2, c3, c4 := Octet(f, 0), Octet(f, 1), Octet(f, 2), Octet(f, 3);
      var k := Utf8ToUcs4Count(m, |f|, c1, c2, c3, c4);
      Utf8ToUcs4CountsStep(m, |f|, c1, c2, c3, c4, mx - units);
      CountingOn(total, step, frm, i, mx - units, k);
      if k.octets == 0 {
        return i;
      }
      i, units := i + k.octets, units + k.units;
    }
    Utf8ToUcs4Full(m, frm, i, mx - units);
    CountingEnds(total, step, frm, i, mx - units);
    r := i;
  }

  ghost function Utf8ToUtf16Uses(m: bv32, consume: bool, frm: seq<bv8>, mx: nat): (r: nat) {
    Utf8ToUtf16IsCodec(m);
    Decoded(Utf8ToUtf16(m), UTF8_HEADER, consume, frm, mx).consumed
  }

  lemma Utf8ToUtf16Full(m: bv32, frm: seq<bv8>, i: nat, left: nat)
    requires i <= |frm| && (i == |frm| || left == 0)
    ensures i == |frm| || Utf8ToUtf16(m)(frm[i..], left).Stop?
  {
  }

  /** utf8_to_utf16_length, which counts both units of a pair */
  method Utf8ToUtf16Length(m: bv32, consume: bool, frm: seq<bv8>, mx: nat) returns (r: nat)
    ensures r == Utf8ToUtf16Uses(m, consume, frm, mx)
  {
    Utf8ToUtf16IsCodec(m);
    hide Bounded, Monotone, Convert, Utf8ToUtf16Count, Utf8ToUtf16Char, Octet, Counts, Join;
    ghost var step, total := Utf8ToUtf16(m), Utf8ToUtf16Uses(m, consume, frm, mx);
    var i, units := HeaderSize(UTF8_HEADER, consume, frm), 0;
    while i < |frm| && units < mx
      invariant i <= |frm| && units <= mx && Counting(total, step, frm, i, mx - units)
      decreases |frm| - i
    {
      var f := frm[i..];
      var c1, c2, c3, c4 := Octet(f, 0), Octet(f, 1), Octet(f, 2), Octet(f, 3);
      var k := Utf8ToUtf16Count(m, |f|, c1, c2, c3, c4, mx - units);
      Utf8ToUtf16CountsStep(m, |f|, c1, c2, c3, c4, mx - units);
      CountingOn(total, step, frm, i, mx - units, k);
      if k.octets == 0 {
        return i;
      }
      i, units := i + k.octets, units + k.units;
    }
    Utf8ToUtf16Full(m, frm, i, mx - units);
    CountingEnds(total, step, frm, i, mx - units);
    r := i;
  }

  ghost function Utf8ToUcs2Uses(m: bv32, consume: bool, frm: seq<bv8>, mx: nat): (r: nat) {
    Utf8ToUcs2IsCodec(m);
    Decoded(Utf8ToUcs2(m), UTF8_HEADER, consume, frm, mx).consumed
  }

  lemma Utf8ToUcs2Full(m: bv32, frm: seq<bv8>, i: nat, left: nat)
    requires i <= |frm| && (i == |frm| || left == 0)
    ensures i == |frm| || Utf8ToUcs2(m)(frm[i..], left).Stop?
  {
  }

  /** utf8_to_ucs2_length */
  method Utf8ToUcs2Length(m: bv32, consume: bool, frm: seq<bv8>, mx: nat) returns (r: nat)
    ensures r == Utf8ToUcs2Uses(m, consume, frm, mx)
  {
    Utf8ToUcs2IsCodec(m);
    hide Bounded, Monotone, Convert, Utf8ToUcs2Count, Utf8ToUcs2Char, Octet, Counts, Join;
    ghost var step, total := Utf8ToUcs2(m), Utf8ToUcs2Uses(m, consume, frm, mx);
    var i, units := HeaderSize(UTF8_HEADER, consume, frm), 0;
    while i < |frm| && units < mx
      invariant i <= |frm| && units <= mx && Counting(total, step, frm, i, mx - units)
      decreases |frm| - i
    {
      var f := frm[i..];
      var c1, c2, c3 := Octet(f, 0), Octet(f, 1), Octet(f, 2);
      var k := Utf8ToUcs2Count(m, |f|, c1, c2, c3);
      Utf8ToUcs2CountsStep(m, |f|, c1, c2, c3, mx - units);
      CountingOn(total, step, frm, i, mx - units, k);
      if k.octets == 0 {
        return i;
      }
      i, units := i + k.octets, units + k.units;
    }
    Utf8ToUcs2Full(m, frm, i, mx - units);
    CountingEnds(total, step, frm, i, mx - units);
    r := i;
  }

  ghost function Utf16ToUcs4Uses(e: Endian, m: bv32, consume: bool, frm: seq<bv8>, mx: nat): (r: nat) {
    Utf16ToUcs4IsCodec(e, m);
    Decoded(Utf16ToUcs4(e, m), Utf16Header(e), consume, frm, mx).consumed
  }

  lemma Utf16ToUcs4Full(e: Endian, m: bv32, frm: seq<bv8>, i: nat, left: nat)
    requires i <= |frm| && (|frm| <= i + 1 || left == 0)
    ensures i == |frm| || Utf16ToUcs4(e, m)(frm[i..], left).Stop?
  {
  }

  /** utf16be_to_ucs4_length and utf16le_to_ucs4_length */
  method Utf16ToUcs4Length(e: Endian, m: bv32, consume: bool, frm: seq<bv8>, mx: nat) returns (r: nat)
    ensures r == Utf16ToUcs4Uses(e, m, consume, frm, mx)
  {
    Utf16ToUcs4IsCodec(e, m);
    hide Bounded, Monotone, Convert, Utf16ToUcs4Count, Utf16ToUcs4Char, Octet, Counts, Join;
    ghost var step, total := Utf16ToUcs4(e, m), Utf16ToUcs4Uses(e, m, consume, frm, mx);
    var i, units := HeaderSize(Utf16Header(e), consume, frm), 0;
    while i + 1 < |frm| && units < mx
      invariant i <= |frm| && units <= mx && Counting(total, step, frm, i, mx - units)
      decreases |frm| - i
    {
      var f := frm[i..];
      var w1, w2 := Join(e, Octet(f, 0), Octet(f, 1)), Join(e, Octet(f, 2), Octet(f, 3));
      var k := Utf16ToUcs4Count(m, |f|, w1, w2);
      Utf16ToUcs4CountsStep(m, |f|, w1, w2, mx - units);
      CountingOn(total, step, frm, i, mx - units, k);
      if k.octets == 0 {
        return i;
      }
      i, units := i + k.octets, units + k.units;
    }
    Utf16ToUcs4Full(e, m, frm, i, mx - units);
    CountingEnds(total, step, frm, i, mx - units);
    r := i;
  }

  ghost function Utf16ToUcs2Uses(e: Endian, m: bv32, consume: bool, frm: seq<bv8>, mx: nat): (r: nat) {
    Utf16ToUcs2IsCodec(e, m);
    Decoded(Utf16ToUcs2(e, m), Utf16Header(e), consume, frm, mx).consumed
  }

  lemma Utf16ToUcs2Full(e: Endian, m: bv32, frm: seq<bv8>, i: nat, left: nat)
    requires i <= |frm| && (|frm| <= i + 1 || left == 0)
    ensures i == |frm| || Utf16ToUcs2(e, m)(frm[i..], left).Stop?
  {
  }

  /** utf16be_to_ucs2_length and utf16le_to_ucs2_length */
  method Utf16ToUcs2Length(e: Endian, m: bv32, consume: bool, frm: seq<bv8>, mx: nat) returns (r: nat)
    ensures r == Utf16ToUcs2Uses(e, m, consume, frm, mx)
  {
    Utf16ToUcs2IsCodec(e, m);
    hide Bounded, Monotone, Convert, Utf16ToUcs2Count, Utf16ToUcs2Char, Octet, Counts, Join;
    ghost var step, total := Utf16ToUcs2(e, m), Utf16ToUcs2Uses(e, m, consume, frm, mx);
    var i, units := HeaderSize(Utf16Header(e), consume, frm), 0;
    while i + 1 < |frm| && units < mx
      invariant i <= |frm| && units <= mx && Counting(total, step, frm, i, mx - units)
      decreases |frm| - i
    {
      var f := frm[i..];
      var w := Join(e, Octet(f, 0), Octet(f, 1));
      var k := Utf16ToUcs2Count(m, w);
      Utf16ToUcs2CountsStep(m, |f|, w, mx - units);
      CountingOn(total, step, frm, i, mx - units, k);
      if k.octets == 0 {
        return i;
      }
      i, units := i + k.octets, units + k.units;
    }
    Utf16ToUcs2Full(e, m, frm, i, mx - units);
    CountingEnds(total, step, frm, i, mx - units);
    r := i;
  }
}
