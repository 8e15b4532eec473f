/**
 One step of each converter of libcxx/src/locale.cpp: what the body of its loop does
 with the code units and the output room that are left.  The tests come in the order of
 the source, because the order decides between partial and error.  A decoder's loop also
 ends, with partial, when there is no room left.  `m` is Maxcode; `n` counts the units
 that are left, and a unit beyond them, which no step looks at, is read as 0.
 */
module CodecSteps {
  import opened CodecMachine
  import opened CodecBits

  function Octet(f: seq<bv8>, i: nat): (r: bv8) { if i < |f| then f[i] else 0 }

  function Unit(f: seq<bv16>, i: nat): (r: bv32) { if i < |f| then f[i] as bv32 else 0 }

  /** ucs4_to_utf8 */
  function Ucs4ToUtf8(m: bv32): (r: Stepper<bv32, bv8>) {
    (f: seq<bv32>, room: nat) => if f == [] then Stop(Partial) else Ucs4ToUtf8Char(m, f[0], room)
  }

  function Ucs4ToUtf8Char(m: bv32, c: bv32, room: nat): (r: Step<bv8>) {
    if IsSurrogate(c) || c > m then Stop(Error)
    else if c < 0x80 then (if room < 1 then Stop(Partial) else Take(1, [Low8(c)]))
    else if c < 0x800 then (if room < 2 then Stop(Partial) else Take(1, [Lead2(c), Trail0(c)]))
    else if c < 0x10000 then (if room < 3 then Stop(Partial) else Take(1, [Lead3(c), Trail1(c), Trail0(c)]))
    else if room < 4 then Stop(Partial) else Take(1, [Lead4(c), Trail2(c), Trail1(c), Trail0(c)])
  }

  /** utf8_to_ucs4 */
  function Utf8ToUcs4(m: bv32): (r: Stepper<bv8, bv32>) {
    (f: seq<bv8>, room: nat) => Utf8ToUcs4Char(m, |f|, Octet(f, 0), Octet(f, 1), Octet(f, 2), Octet(f, 3), room)
  }

  function Utf8ToUcs4Char(m: bv32, n: nat, c1: bv8, c2: bv8, c3: bv8, c4: bv8, room: nat): (r: Step<bv32>) {
    if n == 0 || room == 0 then Stop(Partial)
    else if c1 < 0x80 then (if c1 as bv32 > m then Stop(Error) else Take(1, [c1 as bv32]))
    else if c1 < 0xC2 then Stop(Error)
    else if c1 < 0xE0 then
      if n < 2 then Stop(Partial)
      else if !IsTrail(c2) then Stop(Error)
      else if Decode2(c1, c2) > m then Stop(Error)
      else Take(2, [Decode2(c1, c2)])
    else if c1 < 0xF0 then
      if n < 3 then Stop(Partial)
      else if !IsSecondOf3(c1, c2) || !IsTrail(c3) then Stop(Error)
      else if Decode3(c1, c2, c3) > m then Stop(Error)
      else Take(3, [Decode3(c1, c2, c3)])
    else if c1 < 0xF5 then
      if n < 4 then Stop(Partial)
      else if !IsSecondOf4(c1, c2) || !IsTrail(c3) || !IsTrail(c4) then Stop(Error)
      else if Decode4(c1, c2, c3, c4) > m then Stop(Error)
      else Take(4, [Decode4(c1, c2, c3, c4)])
    else Stop(Error)
  }

  /** utf16_to_utf8 */
  function Utf16ToUtf8(m: bv32): (r: Stepper<bv16, bv8>) {
    (f: seq<bv16>, room: nat) => Utf16ToUtf8Char(m, |f|, Unit(f, 0), Unit(f, 1), room)
  }

  function Utf16ToUtf8Char(m: bv32, n: nat, w1: bv32, w2: bv32, room: nat): (r: Step<bv8>) {
    if n == 0 then Stop(Partial)
    else if w1 > m then Stop(Error)
    else if w1 < 0x80 then (if room < 1 then Stop(Partial) else Take(1, [Low8(w1)]))
    else if w1 < 0x800 then (if room < 2 then Stop(Partial) else Take(1, [Lead2(w1), Trail0(w1)]))
    else if w1 < 0xD800 then (if room < 3 then Stop(Partial) else Take(1, [Lead3(w1), Trail1(w1), Trail0(w1)]))
    else if w1 < 0xDC00 then
      if n < 2 then Stop(Partial)
      else if !IsLowSurrogate(w2) then Stop(Error)
      else if room < 4 then Stop(Partial)
      else if OfPairSum(w1, w2) > m then Stop(Error)
      else Take(2, [PairOctet1(w1), PairOctet2(w1), PairOctet3(w1, w2), Trail0(w2)])
    else if w1 < 0xE000 then Stop(Error)
    else if room < 3 then Stop(Partial) else Take(1, [Lead3(w1), Trail1(w1), Trail0(w1)])
  }

  /** utf8_to_utf16 */
  function Utf8ToUtf16(m: bv32): (r: Stepper<bv8, bv16>) {
    (f: seq<bv8>, room: nat) => Utf8ToUtf16Char(m, |f|, Octet(f, 0), Octet(f, 1), Octet(f, 2), Octet(f, 3), room)
  }

  function Utf8ToUtf16Char(m: bv32, n: nat, c1: bv8, c2: bv8, c3: bv8, c4: bv8, room: nat): (r: Step<bv16>) {
    if n == 0 || room == 0 then Stop(Partial)
    else if c1 as bv32 > m then Stop(Error)
    else if c1 < 0x80 then Take(1, [c1 as bv16])
    else if c1 < 0xC2 then Stop(Error)
    else if c1 < 0xE0 then
      if n < 2 then Stop(Partial)
      else if !IsTrail(c2) then Stop(Error)
      else if Decode2(c1, c2) > m then Stop(Error)
      else Take(2, [Low16(Decode2(c1, c2))])
    else if c1 < 0xF0 then
      if n < 3 then Stop(Partial)
      else if !IsSecondOf3(c1, c2) || !IsTrail(c3) then Stop(Error)
      else if Decode3(c1, c2, c3) > m then Stop(Error)
      else Take(3, [Low16(Decode3(c1, c2, c3))])
    else if c1 < 0xF5 then
      if n < 4 then Stop(Partial)
      else if !IsSecondOf4(c1, c2) || !IsTrail(c3) || !IsTrail(c4) then Stop(Error)
      else if room < 2 then Stop(Partial)
      else if Decode4(c1, c2, c3, c4) > m then Stop(Error)
      else Take(4, [Low16(HighOfOctets(c1, c2, c3)), Low16(LowOfOctets(c3, c4))])
    else Stop(Error)
  }

  /** ucs4_to_utf16be and ucs4_to_utf16le */
  function Ucs4ToUtf16(e: Endian, m: bv32): (r: Stepper<bv32, bv8>) {
    (f: seq<bv32>, room: nat) => if f == [] then Stop(Partial) else Ucs4ToUtf16Char(e, m, f[0], room)
  }

  function Ucs4ToUtf16Char(e: Endian, m: bv32, c: bv32, room: nat): (r: Step<bv8>) {
    if IsSurrogate(c) || c > m then Stop(Error)
    else if c < 0x10000 then (if room < 2 then Stop(Partial) else Take(1, [First(e, c), Second(e, c)]))
    else if room < 4 then Stop(Partial)
    else Take(1, [First(e, High(c)), Second(e, High(c)), First(e, Low(c)), Second(e, Low(c))])
  }

  /** utf16be_to_ucs4 and utf16le_to_ucs4, whose loop also ends when a single octet is left */
  function Utf16ToUcs4(e: Endian, m: bv32): (r: Stepper<bv8, bv32>) {
    (f: seq<bv8>, room: nat) =>
      Utf16ToUcs4Char(m, |f|, Join(e, Octet(f, 0), Octet(f, 1)), Join(e, Octet(f, 2), Octet(f, 3)), room)
  }

  function Utf16ToUcs4Char(m: bv32, n: nat, w1: bv32, w2: bv32, room: nat): (r: Step<bv32>) {
    if n < 2 || room == 0 then Stop(Partial)
    else if IsLowSurrogate(w1) then Stop(Error)
    else if !IsHighSurrogate(w1) then (if w1 > m then Stop(Error) else Take(2, [w1]))
    else if n < 4 then Stop(Partial)
    else if !IsLowSurrogate(w2) then Stop(Error)
    else if OfPair(w1, w2) > m then Stop(Error)
    else Take(4, [OfPair(w1, w2)])
  }

  /** ucs2_to_utf8 */
  function Ucs2ToUtf8(m: bv32): (r: Stepper<bv16, bv8>) {
    (f: seq<bv16>, room: nat) => if f == [] then Stop(Partial) else Ucs2ToUtf8Char(m, Unit(f, 0), room)
  }

  function Ucs2ToUtf8Char(m: bv32, c: bv32, room: nat): (r: Step<bv8>) {
    if IsSurrogate(c) || c > m then Stop(Error)
    else if c < 0x80 then (if room < 1 then Stop(Partial) else Take(1, [Low8(c)]))
    else if c < 0x800 then (if room < 2 then Stop(Partial) else Take(1, [Lead2(c), Trail0(c)]))
    else if room < 3 then Stop(Partial) else Take(1, [Lead3(c), Trail1(c), Trail0(c)])
  }

  /** utf8_to_ucs2, for which a four-octet sequence is an error */
  function Utf8ToUcs2(m: bv32): (r: Stepper<bv8, bv16>) {
    (f: seq<bv8>, room: nat) => Utf8ToUcs2Char(m, |f|, Octet(f, 0), Octet(f, 1), Octet(f, 2), room)
  }

  function Utf8ToUcs2Char(m: bv32, n: nat, c1: bv8, c2: bv8, c3: bv8, room: nat): (r: Step<bv16>) {
    if n == 0 || room == 0 then Stop(Partial)
    else if c1 < 0x80 then (if c1 as bv32 > m then Stop(Error) else Take(1, [c1 as bv16]))
    else if c1 < 0xC2 then Stop(Error)
    else if c1 < 0xE0 then
      if n < 2 then Stop(Partial)
      else if !IsTrail(c2) then Stop(Error)
      else if Decode2(c1, c2) > m then Stop(Error)
      else Take(2, [Low16(Decode2(c1, c2))])
    else if c1 < 0xF0 then
      if n < 3 then Stop(Partial)
      else if !IsSecondOf3(c1, c2) || !IsTrail(c3) then Stop(Error)
      else if Decode3(c1, c2, c3) > m then Stop(Error)
      else Take(3, [Low16(Decode3(c1, c2, c3))])
    else Stop(Error)
  }

  /** ucs2_to_utf16be and ucs2_to_utf16le */
  function Ucs2ToUtf16(e: Endian, m: bv32): (r: Stepper<bv16, bv8>) {
    (f: seq<bv16>, room: nat) => if f == [] then Stop(Partial) else Ucs2ToUtf16Char(e, m, Unit(f, 0), room)
  }

  function Ucs2ToUtf16Char(e: Endian, m: bv32, c: bv32, room: nat): (r: Step<bv8>) {
    if IsSurrogate(c) || c > m then Stop(Error)
    else if room < 2 then Stop(Partial) else Take(1, [First(e, c), Second(e, c)])
  }

  /** utf16be_to_ucs2 and utf16le_to_ucs2 */
  function Utf16ToUcs2(e: Endian, m: bv32): (r: Stepper<bv8, bv16>) {
    (f: seq<bv8>, room: nat) => Utf16ToUcs2Char(m, |f|, Join(e, Octet(f, 0), Octet(f, 1)), room)
  }

  function Utf16ToUcs2Char(m: bv32, n: nat, w: bv32, room: nat): (r: Step<bv16>) {
    if n < 2 || room == 0 then Stop(Partial)
    else if IsSurrogate(w) || w > m then Stop(Error) else Take(2, [Low16(w)])
  }
}
