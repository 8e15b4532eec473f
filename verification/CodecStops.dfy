/**
 Why a converter of libcxx/src/locale.cpp stops: what is left of the input decides whether
 the result is partial, because more input or more room could help, or error.
 */
module CodecStops {
  import opened CodecMachine
  import opened CodecBits
  import opened CodecSteps
  import opened CodecFormats
  import opened CodecLaws
  import opened CodecTheorems

  // -- any converter

  /** A conversion is ok exactly if nothing is left; otherwise its result is that of the next step. */
  lemma {:induction false} StoppedBy<A(!new), B(!new)>(step: Stepper<A, B>, f: seq<A>, room: nat)
    requires Bounded(step)
    ensures var r := Convert(step, f, room);
            && (r.result == Ok <==> f[r.consumed..] == [])
            && (f[r.consumed..] != [] ==> step(f[r.consumed..], room - |r.out|) == Stop(r.result))
    decreases |f|
  {
    if f != [] && step(f, room).Take? {
      var Take(n, o) := step(f, room);
      ConvertTake(step, f, room);
      StoppedBy(step, f[n..], room - |o|);
      DropDrop(f, n, Convert(step, f[n..], room - |o|).consumed);
    }
  }

  /** No character of the domain stands where the conversion stopped, unless the room for it is missing. */
  lemma NothingFits<A(!new), B(!new)>(step: Stepper<A, B>, src: bv32 -> seq<A>, dst: bv32 -> seq<B>,
                                      domain: bv32 -> bool, f: seq<A>, room: nat, c: bv32)
    requires Bounded(step) && Accepts(step, src, dst, domain)
    requires var r := Convert(step, f, room); f[r.consumed..] != [] && domain(c) && src(c) <= f[r.consumed..]
    ensures var r := Convert(step, f, room); |dst(c)| > room - |r.out|
  {
    StoppedBy(step, f, room);
    var r := Convert(step, f, room);
    var rest, left := f[r.consumed..], room - |r.out|;
    var g := rest[|src(c)|..];
    assert rest == src(c) + g;
    assert step(src(c) + g, left) == step(rest, left);
    assert TakesAll(step, src, dst, c, g, left);
  }

  // -- one step

  /** How many octets the first octet of a character calls for, in the UTF-8 of RFC 3629; 0 if it is none. */
  function LeadLength(lead: bv8): (n: nat) {
    if lead < 0x80 then 1
    else if lead < 0xC2 then 0
    else if lead < 0xE0 then 2
    else if lead < 0xF0 then 3
    else if lead < 0xF5 then 4
    else 0
  }

  lemma Utf8ToUcs4Why(m: bv32, n: nat, c1: bv8, c2: bv8, c3: bv8, c4: bv8, room: nat)
    requires n >= 1 && Utf8ToUcs4Char(m, n, c1, c2, c3, c4, room).Stop?
    ensures Utf8ToUcs4Char(m, n, c1, c2, c3, c4, room).why ==
            if room == 0 || n < LeadLength(c1) then Partial else Error
  {
    hide IsTrail, IsSecondOf3, IsSecondOf4, Decode2, Decode3, Decode4;
  }

  lemma Utf8ToUtf16Why(m: bv32, n: nat, c1: bv8, c2: bv8, c3: bv8, c4: bv8, room: nat)
    requires n >= 1 && Utf8ToUtf16Char(m, n, c1, c2, c3, c4, room).Stop?
    ensures Utf8ToUtf16Char(m, n, c1, c2, c3, c4, room).why ==
            if room == 0 then Partial
            else if c1 as bv32 > m then Error
            else if n < LeadLength(c1) || (room == 1 && Char4(c1, c2, c3, c4)) then Partial
            else Error
  {
    GrammarIsValid(c1, c2, c3, c4);
    hide Char4, IsTrail, IsSecondOf3, IsSecondOf4, Decode2, Decode3, Decode4, Low16, HighOfOctets, LowOfOctets;
  }

  lemma Utf8ToUcs2Why(m: bv32, n: nat, c1: bv8, c2: bv8, c3: bv8, room: nat)
    requires n >= 1 && Utf8ToUcs2Char(m, n, c1, c2, c3, room).Stop?
    ensures Utf8ToUcs2Char(m, n, c1, c2, c3, room).why ==
            if room == 0 || (n < LeadLength(c1) && c1 < 0xF0) then Partial else Error
  {
    hide IsTrail, IsSecondOf3, Decode2, Decode3, Low16;
  }

  lemma SurrogateRange(c: bv32)
    ensures IsSurrogate(c) <==> 0xD800 <= c < 0xE000
    ensures c < 0x10000 ==> (IsLowSurrogate(c) <==> 0xDC00 <= c < 0xE000)
    ensures c < 0x10000 ==> (IsHighSurrogate(c) <==> 0xD800 <= c < 0xDC00)
  {
  }

  /** An encoder of single units: error for a surrogate and above Maxcode, otherwise the room is missing. */
  function EncoderWhy(m: bv32, c: bv32): (why: Result) {
    if 0xD800 <= c < 0xE000 || c > m then Error else Partial
  }

  lemma Ucs4ToUtf8Why(m: bv32, c: bv32, room: nat)
    requires Ucs4ToUtf8Char(m, c, room).Stop?
    ensures Ucs4ToUtf8Char(m, c, room).why == EncoderWhy(m, c)
  {
    SurrogateRange(c);
    hide IsSurrogate;
  }

  lemma Ucs4ToUtf16Why(e: Endian, m: bv32, c: bv32, room: nat)
    requires Ucs4ToUtf16Char(e, m, c, room).Stop?
    ensures Ucs4ToUtf16Char(e, m, c, room).why == EncoderWhy(m, c)
  {
    SurrogateRange(c);
    hide IsSurrogate, First, Second;
  }

  lemma Ucs2ToUtf8Why(m: bv32, c: bv32, room: nat)
    requires Ucs2ToUtf8Char(m, c, room).Stop?
    ensures Ucs2ToUtf8Char(m, c, room).why == EncoderWhy(m, c)
  {
    SurrogateRange(c);
    hide IsSurrogate;
  }

  lemma Ucs2ToUtf16Why(e: Endian, m: bv32, c: bv32, room: nat)
    requires Ucs2ToUtf16Char(e, m, c, room).Stop?
    ensures Ucs2ToUtf16Char(e, m, c, room).why == EncoderWhy(m, c)
  {
    SurrogateRange(c);
    hide IsSurrogate, First, Second;
  }

  /** Two units, of which the second is looked at if the first is a high surrogate. */
  function PairWhy(m: bv32, n: nat, w1: bv32, w2: bv32, room: int): (why: Result) {
    if w1 > m then Error
    else if 0xD800 <= w1 < 0xDC00 then
      if n == 1 || (0xDC00 <= w2 < 0xE000 && room < 4) then Partial else Error
    else if 0xDC00 <= w1 < 0xE000 then Error
    else Partial
  }

  lemma Utf16ToUtf8Why(m: bv32, n: nat, w1: bv32, w2: bv32, room: nat)
    requires n >= 1 && w1 < 0x10000 && w2 < 0x10000 && Utf16ToUtf8Char(m, n, w1, w2, room).Stop?
    ensures Utf16ToUtf8Char(m, n, w1, w2, room).why == PairWhy(m, n, w1, w2, room) != Ok
  {
    SurrogateRange(w2);
    hide IsLowSurrogate, OfPairSum, PairOctet1, PairOctet2, PairOctet3;
  }

  lemma Utf16ToUcs4Why(m: bv32, n: nat, w1: bv32, w2: bv32, room: nat)
    requires n >= 1 && w1 < 0x10000 && w2 < 0x10000 && Utf16ToUcs4Char(m, n, w1, w2, room).Stop?
    ensures Utf16ToUcs4Char(m, n, w1, w2, room).why ==
            if n == 1 || room == 0 || (0xD800 <= w1 < 0xDC00 && n < 4) then Partial else Error
  {
    SurrogateRange(w1);
    hide IsLowSurrogate, IsHighSurrogate, OfPair;
  }

  lemma Utf16ToUcs2Why(m: bv32, n: nat, w: bv32, room: nat)
    requires n >= 1 && Utf16ToUcs2Char(m, n, w, room).Stop?
    ensures Utf16ToUcs2Char(m, n, w, room).why == if n == 1 || room == 0 then Partial else Error
  {
  }

  // -- whole conversions

  /** The result is `why`, and where the conversion stopped no character of the domain stands that would fit. */
  ghost predicate StopsRightly<A(!new), B(!new)>(r: Outcome<B>, rest: seq<A>, left: int, src: bv32 -> seq<A>,
                                                 dst: bv32 -> seq<B>, domain: bv32 -> bool, why: Result) {
    && r.result == why && (why == Ok <==> rest == [])
    && (rest != [] ==> forall c {:trigger domain(c)} :: domain(c) && src(c) <= rest ==> left < |dst(c)|)
  }

  lemma StopsSo<A(!new), B(!new)>(step: Stepper<A, B>, src: bv32 -> seq<A>, dst: bv32 -> seq<B>,
                                  domain: bv32 -> bool, f: seq<A>, room: nat, why: Result)
    requires Bounded(step) && Accepts(step, src, dst, domain)
    requires var r := Convert(step, f, room);
             if f[r.consumed..] == [] then why == Ok
             else step(f[r.consumed..], room - |r.out|).Stop? ==> step(f[r.consumed..], room - |r.out|).why == why != Ok
    ensures var r := Convert(step, f, room);
            StopsRightly(r, f[r.consumed..], room - |r.out|, src, dst, domain, why)
  {
    StoppedBy(step, f, room);
    var r := Convert(step, f, room);
    var rest := f[r.consumed..];
    hide Bounded, Accepts, Convert;
    if rest != [] {
      forall c {:trigger domain(c)} | domain(c) && src(c) <= rest ensures room - |r.out| < |dst(c)| {
        NothingFits(step, src, dst, domain, f, room, c);
      }
    }
  }

  // The result, by what is left of the input and of the room.

  function AfterUnits32(m: bv32, rest: seq<bv32>): (why: Result) {
    if rest == [] then Ok else EncoderWhy(m, rest[0])
  }

  function AfterUnits16(m: bv32, rest: seq<bv16>): (why: Result) {
    if rest == [] then Ok else EncoderWhy(m, Unit(rest, 0))
  }

  /** UTF-8: partial if the first octet calls for more of them, or there is no room. */
  function AfterUtf8(rest: seq<bv8>, left: int): (why: Result) {
    if rest == [] then Ok else if left == 0 || |rest| < LeadLength(rest[0]) then Partial else Error
  }

  /** utf8_to_utf16 holds the first octet against Maxcode before that, and may lack the room for a pair. */
  function AfterUtf8Lead(m: bv32, rest: seq<bv8>, left: int): (why: Result) {
    if rest == [] then Ok
    else if left == 0 then Partial
    else if rest[0] as bv32 > m then Error
    else if |rest| < LeadLength(rest[0]) then Partial
    else if left == 1 && |rest| >= 4 && Char4(rest[0], rest[1], rest[2], rest[3]) then Partial
    else Error
  }

  /** utf8_to_ucs2 does not wait for a sequence of four octets. */
  function AfterUtf8Narrow(rest: seq<bv8>, left: int): (why: Result) {
    if rest == [] then Ok
    else if left == 0 || (|rest| < LeadLength(rest[0]) && LeadLength(rest[0]) < 4) then Partial
    else Error
  }

  /** UTF-16 units to UTF-8: partial if a high surrogate is last, or only the room is missing. */
  function AfterUtf16(m: bv32, rest: seq<bv16>, left: int): (why: Result) {
    if rest == [] then Ok else PairWhy(m, |rest|, Unit(rest, 0), Unit(rest, 1), left)
  }

  /** UTF-16 octets: partial if a unit, or the second one of a pair, is not there, or no room. */
  function AfterOctets(e: Endian, rest: seq<bv8>, left: int): (why: Result) {
    if rest == [] then Ok
    else if left == 0 || |rest| == 1 || (|rest| < 4 && 0xD800 <= Join(e, rest[0], rest[1]) < 0xDC00) then Partial
    else Error
  }

  function AfterOctetsNarrow(rest: seq<bv8>, left: int): (why: Result) {
    if rest == [] then Ok else if left == 0 || |rest| == 1 then Partial else Error
  }

  lemma NothingLeft(e: Endian, m: bv32, left: int)
    ensures AfterUnits32(m, []) == AfterUnits16(m, []) == AfterUtf8([], left) == AfterUtf8Lead(m, [], left) == Ok
    ensures AfterUtf8Narrow([], left) == AfterUtf16(m, [], left) == Ok
    ensures AfterOctets(e, [], left) == AfterOctetsNarrow([], left) == Ok
  {
  }

  lemma LeadOf4(c1: bv8, c2: bv8, c3: bv8, c4: bv8)
    ensures Char4(c1, c2, c3, c4) ==> LeadLength(c1) == 4
  {
  }

  lemma Ucs4ToUtf8Next(m: bv32, rest: seq<bv32>, left: nat)
    requires rest != [] && Ucs4ToUtf8(m)(rest, left).Stop?
    ensures Ucs4ToUtf8(m)(rest, left).why == AfterUnits32(m, rest) != Ok
  {
    Ucs4ToUtf8Why(m, rest[0], left);
    hide Ucs4ToUtf8Char;
  }

  lemma Ucs4ToUtf8Known(m: bv32, f: seq<bv32>, room: nat)
    ensures Bounded(Ucs4ToUtf8(m)) && Accepts(Ucs4ToUtf8(m), Ucs4Of, Utf8Of, UpTo(m))
    ensures ConvertUcs4ToUtf8(m, f, room) == Convert(Ucs4ToUtf8(m), f, room)
  {
    Ucs4ToUtf8IsCodec(m);
    Ucs4ToUtf8Accepts(m);
    hide Bounded, Monotone, Translates, Accepts, Convert;
    hide Ucs4ToUtf8Char, Utf8Of, IsScalar, StopsRightly, AfterUnits32;
  }

  /** UCS-4 to UTF-8. */
  lemma Ucs4ToUtf8Result(m: bv32, f: seq<bv32>, room: nat)
    ensures var r := ConvertUcs4ToUtf8(m, f, room);
            var rest, left := f[r.consumed..], room - |r.out|;
            StopsRightly(r, rest, left, Ucs4Of, Utf8Of, UpTo(m),
                         AfterUnits32(m, rest))
  {
    hide *;
    Ucs4ToUtf8Known(m, f, room);
    var r := ConvertUcs4ToUtf8(m, f, room);
    var rest, left := f[r.consumed..], room - |r.out|;
    if rest != [] && Ucs4ToUtf8(m)(rest, left).Stop? {
      Ucs4ToUtf8Next(m, rest, left);
    }
    NothingLeft(Big, m, left);
    StopsSo(Ucs4ToUtf8(m), Ucs4Of, Utf8Of, UpTo(m), f, room, AfterUnits32(m, rest));
  }

  lemma Ucs4ToUtf16Next(e: Endian, m: bv32, rest: seq<bv32>, left: nat)
    requires rest != [] && Ucs4ToUtf16(e, m)(rest, left).Stop?
    ensures Ucs4ToUtf16(e, m)(rest, left).why == AfterUnits32(m, rest) != Ok
  {
    Ucs4ToUtf16Why(e, m, rest[0], left);
    hide Ucs4ToUtf16Char;
  }

  lemma Ucs4ToUtf16Known(e: Endian, m: bv32, f: seq<bv32>, room: nat)
    ensures Bounded(Ucs4ToUtf16(e, m)) && Accepts(Ucs4ToUtf16(e, m), Ucs4Of, Utf16OctetsOf(e), UpTo(m))
    ensures ConvertUcs4ToUtf16(e, m, f, room) == Convert(Ucs4ToUtf16(e, m), f, room)
  {
    Ucs4ToUtf16IsCodec(e, m);
    Ucs4ToUtf16Accepts(e, m);
    hide Bounded, Monotone, Translates, Accepts, Convert;
    hide Ucs4ToUtf16Char, Utf16Octets, IsScalar, StopsRightly, AfterUnits32;
  }

  /** UCS-4 to UTF-16 octets. */
  lemma Ucs4ToUtf16Result(e: Endian, m: bv32, f: seq<bv32>, room: nat)
    ensures var r := ConvertUcs4ToUtf16(e, m, f, room);
            var rest, left := f[r.consumed..], room - |r.out|;
            StopsRightly(r, rest, left, Ucs4Of, Utf16OctetsOf(e), UpTo(m),
                         AfterUnits32(m, rest))
  {
    hide *;
    Ucs4ToUtf16Known(e, m, f, room);
    var r := ConvertUcs4ToUtf16(e, m, f, room);
    var rest, left := f[r.consumed..], room - |r.out|;
    if rest != [] && Ucs4ToUtf16(e, m)(rest, left).Stop? {
      Ucs4ToUtf16Next(e, m, rest, left);
    }
    NothingLeft(e, m, left);
    StopsSo(Ucs4ToUtf16(e, m), Ucs4Of, Utf16OctetsOf(e), UpTo(m), f, room, AfterUnits32(m, rest));
  }

  lemma Ucs2ToUtf8Next(m: bv32, rest: seq<bv16>, left: nat)
    requires rest != [] && Ucs2ToUtf8(m)(rest, left).Stop?
    ensures Ucs2ToUtf8(m)(rest, left).why == AfterUnits16(m, rest) != Ok
  {
    Ucs2ToUtf8Why(m, Unit(rest, 0), left);
    hide Ucs2ToUtf8Char, Unit;
  }

  lemma Ucs2ToUtf8Known(m: bv32, f: seq<bv16>, room: nat)
    ensures Bounded(Ucs2ToUtf8(m)) && Accepts(Ucs2ToUtf8(m), Ucs2Of, Utf8Of, NarrowUpTo(m))
    ensures ConvertUcs2ToUtf8(m, f, room) == Convert(Ucs2ToUtf8(m), f, room)
  {
    Ucs2ToUtf8IsCodec(m);
    Ucs2ToUtf8Translates(m);
    TranslatesAccepts(Ucs2ToUtf8(m), Ucs2Of, Utf8Of, NarrowUpTo(m));
    hide Bounded, Monotone, Translates, Accepts, Convert;
    hide Ucs2ToUtf8Char, Utf8Of, Ucs2Of, IsScalar, StopsRightly, AfterUnits16;
  }

  /** UCS-2 to UTF-8. */
  lemma Ucs2ToUtf8Result(m: bv32, f: seq<bv16>, room: nat)
    ensures var r := ConvertUcs2ToUtf8(m, f, room);
            var rest, left := f[r.consumed..], room - |r.out|;
            StopsRightly(r, rest, left, Ucs2Of, Utf8Of, NarrowUpTo(m),
                         AfterUnits16(m, rest))
  {
    hide *;
    Ucs2ToUtf8Known(m, f, room);
    var r := ConvertUcs2ToUtf8(m, f, room);
    var rest, left := f[r.consumed..], room - |r.out|;
    if rest != [] && Ucs2ToUtf8(m)(rest, left).Stop? {
      Ucs2ToUtf8Next(m, rest, left);
    }
    NothingLeft(Big, m, left);
    StopsSo(Ucs2ToUtf8(m), Ucs2Of, Utf8Of, NarrowUpTo(m), f, room, AfterUnits16(m, rest));
  }

  lemma Ucs2ToUtf16Next(e: Endian, m: bv32, rest: seq<bv16>, left: nat)
    requires rest != [] && Ucs2ToUtf16(e, m)(rest, left).Stop?
    ensures Ucs2ToUtf16(e, m)(rest, left).why == AfterUnits16(m, rest) != Ok
  {
    Ucs2ToUtf16Why(e, m, Unit(rest, 0), left);
    hide Ucs2ToUtf16Char, Unit;
  }

  lemma Ucs2ToUtf16Known(e: Endian, m: bv32, f: seq<bv16>, room: nat)
    ensures Bounded(Ucs2ToUtf16(e, m)) && Accepts(Ucs2ToUtf16(e, m), Ucs2Of, Utf16OctetsOf(e), NarrowUpTo(m))
    ensures ConvertUcs2ToUtf16(e, m, f, room) == Convert(Ucs2ToUtf16(e, m), f, room)
  {
    Ucs2ToUtf16IsCodec(e, m);
    Ucs2ToUtf16Translates(e, m);
    TranslatesAccepts(Ucs2ToUtf16(e, m), Ucs2Of, Utf16OctetsOf(e), NarrowUpTo(m));
    hide Bounded, Monotone, Translates, Accepts, Convert;
    hide Ucs2ToUtf16Char, Utf16Octets, Ucs2Of, IsScalar, StopsRightly, AfterUnits16;
  }

  /** UCS-2 to UTF-16 octets. */
  lemma Ucs2ToUtf16Result(e: Endian, m: bv32, f: seq<bv16>, room: nat)
    ensures var r := ConvertUcs2ToUtf16(e, m, f, room);
            var rest, left := f[r.consumed..], room - |r.out|;
            StopsRightly(r, rest, left, Ucs2Of, Utf16OctetsOf(e), NarrowUpTo(m),
                         AfterUnits16(m, rest))
  {
    hide *;
    Ucs2ToUtf16Known(e, m, f, room);
    var r := ConvertUcs2ToUtf16(e, m, f, room);
    var rest, left := f[r.consumed..], room - |r.out|;
    if rest != [] && Ucs2ToUtf16(e, m)(rest, left).Stop? {
      Ucs2ToUtf16Next(e, m, rest, left);
    }
    NothingLeft(e, m, left);
    StopsSo(Ucs2ToUtf16(e, m), Ucs2Of, Utf16OctetsOf(e), NarrowUpTo(m), f, room, AfterUnits16(m, rest));
  }

  lemma Utf8ToUcs4Next(m: bv32, rest: seq<bv8>, left: nat)
    requires rest != [] && Utf8ToUcs4(m)(rest, left).Stop?
    ensures Utf8ToUcs4(m)(rest, left).why == AfterUtf8(rest, left) != Ok
  {
    Utf8ToUcs4Why(m, |rest|, Octet(rest, 0), Octet(rest, 1), Octet(rest, 2), Octet(rest, 3), left);
    hide Utf8ToUcs4Char, LeadLength;
  }

  lemma Utf8ToUcs4Known(m: bv32, f: seq<bv8>, room: nat)
    ensures Bounded(Utf8ToUcs4(m)) && Accepts(Utf8ToUcs4(m), Utf8Of, Ucs4Of, UpTo(m))
    ensures ConvertUtf8ToUcs4(m, f, room) == Convert(Utf8ToUcs4(m), f, room)
  {
    Utf8ToUcs4IsCodec(m);
    Utf8ToUcs4Translates(m);
    TranslatesAccepts(Utf8ToUcs4(m), Utf8Of, Ucs4Of, UpTo(m));
    hide Bounded, Monotone, Translates, Accepts, Convert;
    hide Utf8ToUcs4Char, Utf8Of, IsScalar, StopsRightly, AfterUtf8;
  }

  /** UTF-8 to UCS-4. */
  lemma Utf8ToUcs4Result(m: bv32, f: seq<bv8>, room: nat)
    ensures var r := ConvertUtf8ToUcs4(m, f, room);
            var rest, left := f[r.consumed..], room - |r.out|;
            StopsRightly(r, rest, left, Utf8Of, Ucs4Of, UpTo(m),
                         AfterUtf8(rest, left))
  {
    hide *;
    Utf8ToUcs4Known(m, f, room);
    var r := ConvertUtf8ToUcs4(m, f, room);
    var rest, left := f[r.consumed..], room - |r.out|;
    if rest != [] && Utf8ToUcs4(m)(rest, left).Stop? {
      Utf8ToUcs4Next(m, rest, left);
    }
    NothingLeft(Big, m, left);
    StopsSo(Utf8ToUcs4(m), Utf8Of, Ucs4Of, UpTo(m), f, room, AfterUtf8(rest, left));
  }

  lemma Utf8ToUtf16Next(m: bv32, rest: seq<bv8>, left: nat)
    requires rest != [] && Utf8ToUtf16(m)(rest, left).Stop?
    ensures Utf8ToUtf16(m)(rest, left).why == AfterUtf8Lead(m, rest, left) != Ok
  {
    Utf8ToUtf16Why(m, |rest|, Octet(rest, 0), Octet(rest, 1), Octet(rest, 2), Octet(rest, 3), left);
    LeadOf4(rest[0], Octet(rest, 1), Octet(rest, 2), Octet(rest, 3));
    hide Utf8ToUtf16Char, LeadLength, Char4;
  }

  lemma Utf8ToUtf16Known(m: bv32, f: seq<bv8>, room: nat)
    ensures Bounded(Utf8ToUtf16(m)) && Accepts(Utf8ToUtf16(m), Utf8Of, Utf16Of, LeadUpTo(m))
    ensures ConvertUtf8ToUtf16(m, f, room) == Convert(Utf8ToUtf16(m), f, room)
  {
    Utf8ToUtf16IsCodec(m);
    Utf8ToUtf16Translates(m);
    TranslatesAccepts(Utf8ToUtf16(m), Utf8Of, Utf16Of, LeadUpTo(m));
    hide Bounded, Monotone, Translates, Accepts, Convert;
    hide Utf8ToUtf16Char, Utf8Of, Utf16Of, IsScalar, InLeadRange, StopsRightly, AfterUtf8Lead;
  }

  /** UTF-8 to UTF-16. */
  lemma Utf8ToUtf16Result(m: bv32, f: seq<bv8>, room: nat)
    ensures var r := ConvertUtf8ToUtf16(m, f, room);
            var rest, left := f[r.consumed..], room - |r.out|;
            StopsRightly(r, rest, left, Utf8Of, Utf16Of, LeadUpTo(m),
                         AfterUtf8Lead(m, rest, left))
  {
    hide *;
    Utf8ToUtf16Known(m, f, room);
    var r := ConvertUtf8ToUtf16(m, f, room);
    var rest, left := f[r.consumed..], room - |r.out|;
    if rest != [] && Utf8ToUtf16(m)(rest, left).Stop? {
      Utf8ToUtf16Next(m, rest, left);
    }
    NothingLeft(Big, m, left);
    StopsSo(Utf8ToUtf16(m), Utf8Of, Utf16Of, LeadUpTo(m), f, room, AfterUtf8Lead(m, rest, left));
  }

  lemma Utf8ToUcs2Next(m: bv32, rest: seq<bv8>, left: nat)
    requires rest != [] && Utf8ToUcs2(m)(rest, left).Stop?
    ensures Utf8ToUcs2(m)(rest, left).why == AfterUtf8Narrow(rest, left) != Ok
  {
    Utf8ToUcs2Why(m, |rest|, Octet(rest, 0), Octet(rest, 1), Octet(rest, 2), left);
    hide Utf8ToUcs2Char;
  }

  lemma Utf8ToUcs2Known(m: bv32, f: seq<bv8>, room: nat)
    ensures Bounded(Utf8ToUcs2(m)) && Accepts(Utf8ToUcs2(m), Utf8Of, Ucs2Of, NarrowUpTo(m))
    ensures ConvertUtf8ToUcs2(m, f, room) == Convert(Utf8ToUcs2(m), f, room)
  {
    Utf8ToUcs2IsCodec(m);
    Utf8ToUcs2Translates(m);
    TranslatesAccepts(Utf8ToUcs2(m), Utf8Of, Ucs2Of, NarrowUpTo(m));
    hide Bounded, Monotone, Translates, Accepts, Convert;
    hide Utf8ToUcs2Char, Utf8Of, Ucs2Of, IsScalar, StopsRightly, AfterUtf8Narrow;
  }

  /** UTF-8 to UCS-2. */
  lemma Utf8ToUcs2Result(m: bv32, f: seq<bv8>, room: nat)
    ensures var r := ConvertUtf8ToUcs2(m, f, room);
            var rest, left := f[r.consumed..], room - |r.out|;
            StopsRightly(r, rest, left, Utf8Of, Ucs2Of, NarrowUpTo(m),
                         AfterUtf8Narrow(rest, left))
  {
    hide *;
    Utf8ToUcs2Known(m, f, room);
    var r := ConvertUtf8ToUcs2(m, f, room);
    var rest, left := f[r.consumed..], room - |r.out|;
    if rest != [] && Utf8ToUcs2(m)(rest, left).Stop? {
      Utf8ToUcs2Next(m, rest, left);
    }
    NothingLeft(Big, m, left);
    StopsSo(Utf8ToUcs2(m), Utf8Of, Ucs2Of, NarrowUpTo(m), f, room, AfterUtf8Narrow(rest, left));
  }

  lemma Utf16ToUtf8Next(m: bv32, rest: seq<bv16>, left: nat)
    requires rest != [] && Utf16ToUtf8(m)(rest, left).Stop?
    ensures Utf16ToUtf8(m)(rest, left).why == AfterUtf16(m, rest, left) != Ok
  {
    UnitCut(rest, 0);
    UnitCut(rest, 1);
    Utf16ToUtf8Why(m, |rest|, Unit(rest, 0), Unit(rest, 1), left);
    hide Utf16ToUtf8Char, Unit, PairWhy;
  }

  lemma Utf16ToUtf8Known(m: bv32, f: seq<bv16>, room: nat)
    ensures Bounded(Utf16ToUtf8(m)) && Accepts(Utf16ToUtf8(m), Utf16Of, Utf8Of, UpTo(m))
    ensures ConvertUtf16ToUtf8(m, f, room) == Convert(Utf16ToUtf8(m), f, room)
  {
    Utf16ToUtf8IsCodec(m);
    Utf16ToUtf8Translates(m);
    TranslatesAccepts(Utf16ToUtf8(m), Utf16Of, Utf8Of, UpTo(m));
    hide Bounded, Monotone, Translates, Accepts, Convert;
    hide Utf16ToUtf8Char, Utf8Of, Utf16Of, IsScalar, StopsRightly, AfterUtf16;
  }

  /** UTF-16 to UTF-8. */
  lemma Utf16ToUtf8Result(m: bv32, f: seq<bv16>, room: nat)
    ensures var r := ConvertUtf16ToUtf8(m, f, room);
            var rest, left := f[r.consumed..], room - |r.out|;
            StopsRightly(r, rest, left, Utf16Of, Utf8Of, UpTo(m),
                         AfterUtf16(m, rest, left))
  {
    hide *;
    Utf16ToUtf8Known(m, f, room);
    var r := ConvertUtf16ToUtf8(m, f, room);
    var rest, left := f[r.consumed..], room - |r.out|;
    if rest != [] && Utf16ToUtf8(m)(rest, left).Stop? {
      Utf16ToUtf8Next(m, rest, left);
    }
    NothingLeft(Big, m, left);
    StopsSo(Utf16ToUtf8(m), Utf16Of, Utf8Of, UpTo(m), f, room, AfterUtf16(m, rest, left));
  }

  lemma Utf16ToUcs4Next(e: Endian, m: bv32, rest: seq<bv8>, left: nat)
    requires rest != [] && Utf16ToUcs4(e, m)(rest, left).Stop?
    ensures Utf16ToUcs4(e, m)(rest, left).why == AfterOctets(e, rest, left) != Ok
  {
    JoinedCut(e, rest, 0);
    JoinedCut(e, rest, 2);
    Utf16ToUcs4Why(m, |rest|, Joined(e, rest, 0), Joined(e, rest, 2), left);
    hide Utf16ToUcs4Char, Join;
  }

  lemma Utf16ToUcs4Known(e: Endian, m: bv32, f: seq<bv8>, room: nat)
    ensures Bounded(Utf16ToUcs4(e, m)) && Accepts(Utf16ToUcs4(e, m), Utf16OctetsOf(e), Ucs4Of, UpTo(m))
    ensures ConvertUtf16ToUcs4(e, m, f, room) == Convert(Utf16ToUcs4(e, m), f, room)
  {
    Utf16ToUcs4IsCodec(e, m);
    Utf16ToUcs4Translates(e, m);
    TranslatesAccepts(Utf16ToUcs4(e, m), Utf16OctetsOf(e), Ucs4Of, UpTo(m));
    hide Bounded, Monotone, Translates, Accepts, Convert;
    hide Utf16ToUcs4Char, Utf16Octets, IsScalar, StopsRightly, AfterOctets;
  }

  /** UTF-16 octets to UCS-4. */
  lemma Utf16ToUcs4Result(e: Endian, m: bv32, f: seq<bv8>, room: nat)
    ensures var r := ConvertUtf16ToUcs4(e, m, f, room);
            var rest, left := f[r.consumed..], room - |r.out|;
            StopsRightly(r, rest, left, Utf16OctetsOf(e), Ucs4Of, UpTo(m),
                         AfterOctets(e, rest, left))
  {
    hide *;
    Utf16ToUcs4Known(e, m, f, room);
    var r := ConvertUtf16ToUcs4(e, m, f, room);
    var rest, left := f[r.consumed..], room - |r.out|;
    if rest != [] && Utf16ToUcs4(e, m)(rest, left).Stop? {
      Utf16ToUcs4Next(e, m, rest, left);
    }
    NothingLeft(e, m, left);
    StopsSo(Utf16ToUcs4(e, m), Utf16OctetsOf(e), Ucs4Of, UpTo(m), f, room, AfterOctets(e, rest, left));
  }

  lemma Utf16ToUcs2Next(e: Endian, m: bv32, rest: seq<bv8>, left: nat)
    requires rest != [] && Utf16ToUcs2(e, m)(rest, left).Stop?
    ensures Utf16ToUcs2(e, m)(rest, left).why == AfterOctetsNarrow(rest, left) != Ok
  {
    Utf16ToUcs2Why(m, |rest|, Join(e, Octet(rest, 0), Octet(rest, 1)), left);
    hide Utf16ToUcs2Char, Join, Octet;
  }

  lemma Utf16ToUcs2Known(e: Endian, m: bv32, f: seq<bv8>, room: nat)
    ensures Bounded(Utf16ToUcs2(e, m)) && Accepts(Utf16ToUcs2(e, m), Utf16OctetsOf(e), Ucs2Of, NarrowUpTo(m))
    ensures ConvertUtf16ToUcs2(e, m, f, room) == Convert(Utf16ToUcs2(e, m), f, room)
  {
    Utf16ToUcs2IsCodec(e, m);
    Utf16ToUcs2Translates(e, m);
    TranslatesAccepts(Utf16ToUcs2(e, m), Utf16OctetsOf(e), Ucs2Of, NarrowUpTo(m));
    hide Bounded, Monotone, Translates, Accepts, Convert;
    hide Utf16ToUcs2Char, Utf16Octets, Ucs2Of, IsScalar, StopsRightly, AfterOctetsNarrow;
  }

  /** UTF-16 octets to UCS-2. */
  lemma Utf16ToUcs2Result(e: Endian, m: bv32, f: seq<bv8>, room: nat)
    ensures var r := ConvertUtf16ToUcs2(e, m, f, room);
            var rest, left := f[r.consumed..], room - |r.out|;
            StopsRightly(r, rest, left, Utf16OctetsOf(e), Ucs2Of, NarrowUpTo(m),
                         AfterOctetsNarrow(rest, left))
  {
    hide *;
    Utf16ToUcs2Known(e, m, f, room);
    var r := ConvertUtf16ToUcs2(e, m, f, room);
    var rest, left := f[r.consumed..], room - |r.out|;
    if rest != [] && Utf16ToUcs2(e, m)(rest, left).Stop? {
      Utf16ToUcs2Next(e, m, rest, left);
    }
    NothingLeft(e, m, left);
    StopsSo(Utf16ToUcs2(e, m), Utf16OctetsOf(e), Ucs2Of, NarrowUpTo(m), f, room, AfterOctetsNarrow(rest, left));
  }
}
