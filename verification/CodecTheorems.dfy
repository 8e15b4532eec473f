/**
 What the converters of libcxx/src/locale.cpp promise together: they undo each other,
 the ways from UCS-4 to UTF-16 agree, and UTF-8 is accepted exactly as section 4 of
 RFC 3629 spells it.  Conversions here are without a header (mode 0).
 */
module CodecTheorems {
  import opened CodecMachine
  import opened CodecBits
  import opened CodecSteps
  import opened CodecFormats
  import opened CodecLaws

  // -- the conversions without a header

  ghost function ConvertUcs4ToUtf8(m: bv32, f: seq<bv32>, room: nat): (r: Outcome<bv8>) {
    Ucs4ToUtf8IsCodec(m);
    Convert(Ucs4ToUtf8(m), f, room)
  }

  ghost function ConvertUtf8ToUcs4(m: bv32, f: seq<bv8>, room: nat): (r: Outcome<bv32>) {
    Utf8ToUcs4IsCodec(m);
    Convert(Utf8ToUcs4(m), f, room)
  }

  ghost function ConvertUtf16ToUtf8(m: bv32, f: seq<bv16>, room: nat): (r: Outcome<bv8>) {
    Utf16ToUtf8IsCodec(m);
    Convert(Utf16ToUtf8(m), f, room)
  }

  ghost function ConvertUtf8ToUtf16(m: bv32, f: seq<bv8>, room: nat): (r: Outcome<bv16>) {
    Utf8ToUtf16IsCodec(m);
    Convert(Utf8ToUtf16(m), f, room)
  }

  ghost function ConvertUcs4ToUtf16(e: Endian, m: bv32, f: seq<bv32>, room: nat): (r: Outcome<bv8>) {
    Ucs4ToUtf16IsCodec(e, m);
    Convert(Ucs4ToUtf16(e, m), f, room)
  }

  ghost function ConvertUtf16ToUcs4(e: Endian, m: bv32, f: seq<bv8>, room: nat): (r: Outcome<bv32>) {
    Utf16ToUcs4IsCodec(e, m);
    Convert(Utf16ToUcs4(e, m), f, room)
  }

  ghost function ConvertUcs2ToUtf8(m: bv32, f: seq<bv16>, room: nat): (r: Outcome<bv8>) {
    Ucs2ToUtf8IsCodec(m);
    Convert(Ucs2ToUtf8(m), f, room)
  }

  ghost function ConvertUtf8ToUcs2(m: bv32, f: seq<bv8>, room: nat): (r: Outcome<bv16>) {
    Utf8ToUcs2IsCodec(m);
    Convert(Utf8ToUcs2(m), f, room)
  }

  ghost function ConvertUcs2ToUtf16(e: Endian, m: bv32, f: seq<bv16>, room: nat): (r: Outcome<bv8>) {
    Ucs2ToUtf16IsCodec(e, m);
    Convert(Ucs2ToUtf16(e, m), f, room)
  }

  ghost function ConvertUtf16ToUcs2(e: Endian, m: bv32, f: seq<bv8>, room: nat): (r: Outcome<bv16>) {
    Utf16ToUcs2IsCodec(e, m);
    Convert(Utf16ToUcs2(e, m), f, room)
  }

  lemma WidthsFromUtf8(m: bv32)
    ensures Narrow(Utf8Of, Ucs4Of, UpTo(m)) && Narrow(Utf8Of, Utf16Of, LeadUpTo(m))
    ensures Narrow(Ucs4Of, Utf8Of, UpTo(m)) && Narrow(Utf16Of, Utf8Of, UpTo(m))
  {
    hide IsScalar, InLeadRange;
  }

  lemma WidthsOfUtf16(e: Endian, m: bv32)
    ensures Narrow(Ucs4Of, Utf16OctetsOf(e), UpTo(m)) && Narrow(Utf16OctetsOf(e), Ucs4Of, UpTo(m))
  {
    hide IsScalar;
  }

  // -- round trips

  /**
   UCS-4 to UTF-8 and back, where Maxcode is that of a character; and for every Maxcode
   UTF-8 to UCS-4 and back, so no overlong form is ever accepted.
   */
  lemma Ucs4Utf8RoundTrip(m: bv32, f: seq<bv32>, s: seq<bv8>, room: nat, room': nat)
    ensures var r := ConvertUcs4ToUtf8(m, f, room);
            m <= 0x10FFFF && r.consumed <= room' ==>
              ConvertUtf8ToUcs4(m, r.out, room') == Outcome(Ok, |r.out|, f[..r.consumed])
    ensures var r := ConvertUtf8ToUcs4(m, s, room);
            r.consumed <= room' ==> ConvertUcs4ToUtf8(m, r.out, room') == Outcome(Ok, |r.out|, s[..r.consumed])
  {
    Ucs4ToUtf8IsCodec(m);
    Ucs4ToUtf8Accepts(m);
    Utf8ToUcs4IsCodec(m);
    Utf8ToUcs4Translates(m);
    hide Bounded, Monotone, Translates, Accepts, Convert;
    if m <= 0x10FFFF && ConvertUcs4ToUtf8(m, f, room).consumed <= room' {
      Ucs4ToUtf8Translates(m);
      RoundTrip(Ucs4ToUtf8(m), Utf8ToUcs4(m), Ucs4Of, Utf8Of, UpTo(m), UpTo(m), f, room, room');
    }
    if ConvertUtf8ToUcs4(m, s, room).consumed <= room' {
      RoundTripAccepted(Utf8ToUcs4(m), Ucs4ToUtf8(m), Utf8Of, Ucs4Of, UpTo(m), UpTo(m), s, room, room');
    }
  }

  /** UCS-4 to UTF-16 octets of either order and back, and the other way round, likewise. */
  lemma Ucs4Utf16RoundTrip(e: Endian, m: bv32, f: seq<bv32>, s: seq<bv8>, room: nat, room': nat)
    ensures var r := ConvertUcs4ToUtf16(e, m, f, room);
            m <= 0x10FFFF && r.consumed <= room' ==>
              ConvertUtf16ToUcs4(e, m, r.out, room') == Outcome(Ok, |r.out|, f[..r.consumed])
    ensures var r := ConvertUtf16ToUcs4(e, m, s, room);
            r.consumed <= room' ==> ConvertUcs4ToUtf16(e, m, r.out, room') == Outcome(Ok, |r.out|, s[..r.consumed])
  {
    Ucs4ToUtf16IsCodec(e, m);
    Ucs4ToUtf16Accepts(e, m);
    Utf16ToUcs4IsCodec(e, m);
    Utf16ToUcs4Translates(e, m);
    hide Bounded, Monotone, Translates, Accepts, Convert;
    if m <= 0x10FFFF && ConvertUcs4ToUtf16(e, m, f, room).consumed <= room' {
      Ucs4ToUtf16Translates(e, m);
      RoundTrip(Ucs4ToUtf16(e, m), Utf16ToUcs4(e, m), Ucs4Of, Utf16OctetsOf(e), UpTo(m), UpTo(m), f, room, room');
    }
    if ConvertUtf16ToUcs4(e, m, s, room).consumed <= room' {
      RoundTripAccepted(Utf16ToUcs4(e, m), Ucs4ToUtf16(e, m), Utf16OctetsOf(e), Ucs4Of, UpTo(m), UpTo(m),
                        s, room, room');
    }
  }

  /** UCS-2 to UTF-8 and back, and the other way round. */
  lemma Ucs2Utf8RoundTrip(m: bv32, f: seq<bv16>, s: seq<bv8>, room: nat, room': nat)
    ensures var r := ConvertUcs2ToUtf8(m, f, room);
            r.consumed <= room' ==> ConvertUtf8ToUcs2(m, r.out, room') == Outcome(Ok, |r.out|, f[..r.consumed])
    ensures var r := ConvertUtf8ToUcs2(m, s, room);
            r.consumed <= room' ==> ConvertUcs2ToUtf8(m, r.out, room') == Outcome(Ok, |r.out|, s[..r.consumed])
  {
    Ucs2ToUtf8IsCodec(m);
    Ucs2ToUtf8Translates(m);
    Utf8ToUcs2IsCodec(m);
    Utf8ToUcs2Translates(m);
    hide Bounded, Monotone, Translates, Convert;
    if ConvertUcs2ToUtf8(m, f, room).consumed <= room' {
      RoundTrip(Ucs2ToUtf8(m), Utf8ToUcs2(m), Ucs2Of, Utf8Of, NarrowUpTo(m), NarrowUpTo(m), f, room, room');
    }
    if ConvertUtf8ToUcs2(m, s, room).consumed <= room' {
      RoundTrip(Utf8ToUcs2(m), Ucs2ToUtf8(m), Utf8Of, Ucs2Of, NarrowUpTo(m), NarrowUpTo(m), s, room, room');
    }
  }

  /** UCS-2 to UTF-16 octets of either order and back, and the other way round. */
  lemma Ucs2Utf16RoundTrip(e: Endian, m: bv32, f: seq<bv16>, s: seq<bv8>, room: nat, room': nat)
    ensures var r := ConvertUcs2ToUtf16(e, m, f, room);
            r.consumed <= room' ==> ConvertUtf16ToUcs2(e, m, r.out, room') == Outcome(Ok, |r.out|, f[..r.consumed])
    ensures var r := ConvertUtf16ToUcs2(e, m, s, room);
            r.consumed <= room' ==> ConvertUcs2ToUtf16(e, m, r.out, room') == Outcome(Ok, |r.out|, s[..r.consumed])
  {
    Ucs2ToUtf16IsCodec(e, m);
    Ucs2ToUtf16Translates(e, m);
    Utf16ToUcs2IsCodec(e, m);
    Utf16ToUcs2Translates(e, m);
    hide Bounded, Monotone, Translates, Convert;
    if ConvertUcs2ToUtf16(e, m, f, room).consumed <= room' {
      RoundTrip(Ucs2ToUtf16(e, m), Utf16ToUcs2(e, m), Ucs2Of, Utf16OctetsOf(e), NarrowUpTo(m), NarrowUpTo(m),
                f, room, room');
    }
    if ConvertUtf16ToUcs2(e, m, s, room).consumed <= room' {
      RoundTrip(Utf16ToUcs2(e, m), Ucs2ToUtf16(e, m), Utf16OctetsOf(e), Ucs2Of, NarrowUpTo(m), NarrowUpTo(m),
                s, room, room');
    }
  }

  // -- utf8_to_utf16 and Maxcode

  /**
   utf8_to_utf16 holds every first octet against Maxcode, and not only characters.  That
   is harmless exactly when no character up to Maxcode has a larger first octet.
   */
  predicate LeadsFit(m: bv32) { m < 0x80 || 0xC3 <= m }

  lemma LeadFits(m: bv32, c: bv32)
    requires LeadsFit(m) && InRange(m, c)
    ensures InLeadRange(m, c)
  {
  }

  lemma LeadMisfits(m: bv32)
    requires !LeadsFit(m)
    ensures InRange(m, Misfit(m)) && !InLeadRange(m, Misfit(m))
  {
  }

  /** With a Maxcode that fits, UTF-16 to UTF-8 and back; the other direction needs no condition. */
  lemma Utf16Utf8RoundTrip(m: bv32, f: seq<bv16>, s: seq<bv8>, room: nat, room': nat)
    ensures var r := ConvertUtf16ToUtf8(m, f, room);
            LeadsFit(m) && r.consumed <= room' ==>
                ConvertUtf8ToUtf16(m, r.out, room') == Outcome(Ok, |r.out|, f[..r.consumed])
    ensures var r := ConvertUtf8ToUtf16(m, s, room);
            r.consumed <= room' ==> ConvertUtf16ToUtf8(m, r.out, room') == Outcome(Ok, |r.out|, s[..r.consumed])
  {
    Utf16ToUtf8IsCodec(m);
    Utf16ToUtf8Translates(m);
    Utf8ToUtf16IsCodec(m);
    Utf8ToUtf16Translates(m);
    hide Bounded, Monotone, Translates, Convert;
    if LeadsFit(m) && ConvertUtf16ToUtf8(m, f, room).consumed <= room' {
      forall c | UpTo(m)(c) ensures LeadUpTo(m)(c) {
        LeadFits(m, c);
      }
      RoundTrip(Utf16ToUtf8(m), Utf8ToUtf16(m), Utf16Of, Utf8Of, UpTo(m), LeadUpTo(m), f, room, room');
    }
    if ConvertUtf8ToUtf16(m, s, room).consumed <= room' {
      RoundTrip(Utf8ToUtf16(m), Utf16ToUtf8(m), Utf8Of, Utf16Of, LeadUpTo(m), UpTo(m), s, room, room');
    }
  }

  lemma SameStrings(m: bv32, f: seq<bv8>, room: nat)
    requires LeadsFit(m) && 4 * |f| <= room
    ensures ConvertUtf8ToUtf16(m, f, room).result == Ok <==> ConvertUtf8ToUcs4(m, f, room).result == Ok
  {
    Utf8ToUcs4IsCodec(m);
    Utf8ToUcs4Translates(m);
    Utf8ToUtf16IsCodec(m);
    Utf8ToUtf16Translates(m);
    WidthsFromUtf8(m);
    hide Bounded, Monotone, Translates, Convert, Narrow, LeadsFit;
    FinishesExactlyOnTexts(Utf8ToUcs4(m), Utf8Of, Ucs4Of, UpTo(m), f, room);
    FinishesExactlyOnTexts(Utf8ToUtf16(m), Utf8Of, Utf16Of, LeadUpTo(m), f, room);
    SameTexts(m, f);
  }

  lemma SameTexts(m: bv32, f: seq<bv8>)
    requires LeadsFit(m)
    ensures IsText(Utf8Of, UpTo(m), f) <==> IsText(Utf8Of, LeadUpTo(m), f)
  {
  }

  /** The smallest character that is up to a Maxcode that does not fit, and has a larger first octet. */
  function Misfit(m: bv32): (r: bv32) { if m < 0xC2 then 0x80 else 0xC0 }

  lemma MisfitRefused(m: bv32, room: nat)
    requires !LeadsFit(m)
    ensures ConvertUtf8ToUtf16(m, Utf8Of(Misfit(m)), room).result != Ok
  {
  }

  lemma DifferentString(m: bv32) returns (f: seq<bv8>)
    requires !LeadsFit(m)
    ensures ConvertUtf8ToUcs4(m, f, 4 * |f|).result == Ok && ConvertUtf8ToUtf16(m, f, 4 * |f|).result != Ok
  {
    var c := Misfit(m);
    f := Utf8Of(c);
    MisfitRefused(m, 4 * |f|);
    LeadMisfits(m);
    FirstOctet(c);
    Utf8ToUcs4IsCodec(m);
    Utf8ToUcs4Translates(m);
    hide Bounded, Monotone, Translates, Convert, LeadsFit, Utf8Of, InRange, Misfit, ConvertUtf8ToUtf16;
    assert UpTo(m)(c);
    OneCharacter(Utf8Of, UpTo(m), c);
    EveryCharacter(Utf8ToUcs4(m), Utf8Of, Ucs4Of, UpTo(m), [c], 4 * |f|);
  }

  lemma FirstOctet(c: bv32)
    ensures 1 <= |Utf8Of(c)|
  {
  }

  lemma OneCharacter<A>(format: bv32 -> seq<A>, domain: bv32 -> bool, c: bv32)
    requires domain(c)
    ensures AllIn(domain, [c]) && Text(format, [c]) == format(c)
  {
  }

  /** utf8_to_utf16 finishes on the same strings as utf8_to_ucs4 exactly when Maxcode fits. */
  lemma SameStringsExactly(m: bv32)
    ensures LeadsFit(m) <==>
            forall f: seq<bv8>, room: nat :: 4 * |f| <= room ==>
              (ConvertUtf8ToUtf16(m, f, room).result == Ok <==> ConvertUtf8ToUcs4(m, f, room).result == Ok)
  {
    hide ConvertUtf8ToUtf16, ConvertUtf8ToUcs4, LeadsFit;
    if LeadsFit(m) {
      forall f: seq<bv8>, room: nat | 4 * |f| <= room
        ensures ConvertUtf8ToUtf16(m, f, room).result == Ok <==> ConvertUtf8ToUcs4(m, f, room).result == Ok
      {
        SameStrings(m, f, room);
      }
    } else {
      var f := DifferentString(m);
    }
  }

  /** UTF-16 survives the way to UTF-8 and back exactly when Maxcode fits. */
  lemma Utf16RoundTripExactly(m: bv32)
    ensures LeadsFit(m) <==>
            forall f: seq<bv16>, room: nat ::
              var r := ConvertUtf16ToUtf8(m, f, room);
              ConvertUtf8ToUtf16(m, r.out, |f|) == Outcome(Ok, |r.out|, f[..r.consumed])
  {
    hide ConvertUtf8ToUtf16, LeadsFit;
    if LeadsFit(m) {
      forall f: seq<bv16>, room: nat
        ensures var r := ConvertUtf16ToUtf8(m, f, room);
                ConvertUtf8ToUtf16(m, r.out, |f|) == Outcome(Ok, |r.out|, f[..r.consumed])
      {
        Utf16Utf8RoundTrip(m, f, [], room, |f|);
      }
    } else {
      var f := Utf16Of(Misfit(m));
      MisfitWritten(m);
      MisfitRefused(m, |f|);
      var r := ConvertUtf16ToUtf8(m, f, 4);
    }
  }

  lemma MisfitWritten(m: bv32)
    requires !LeadsFit(m)
    ensures ConvertUtf16ToUtf8(m, Utf16Of(Misfit(m)), 4).out == Utf8Of(Misfit(m))
  {
    var c := Misfit(m);
    LeadMisfits(m);
    Utf16ToUtf8IsCodec(m);
    Utf16ToUtf8Translates(m);
    WidthsFromUtf8(m);
    hide Bounded, Monotone, Translates, Convert, LeadsFit, Utf8Of, Utf16Of, InRange, Misfit;
    assert UpTo(m)(c);
    OneCharacter(Utf16Of, UpTo(m), c);
    OneCharacter(Utf8Of, UpTo(m), c);
    EveryCharacter(Utf16ToUtf8(m), Utf16Of, Utf8Of, UpTo(m), [c], 4);
  }

  // -- the diagram

  function OctetsOfUnits(e: Endian, us: seq<bv16>): (r: seq<bv8>) {
    if us == [] then [] else [First(e, us[0] as bv32), Second(e, us[0] as bv32)] + OctetsOfUnits(e, us[1..])
  }

  lemma {:induction false} OctetsOfUnitsConcat(e: Endian, us: seq<bv16>, vs: seq<bv16>)
    ensures OctetsOfUnits(e, us + vs) == OctetsOfUnits(e, us) + OctetsOfUnits(e, vs)
    decreases |us|
  {
    hide First, Second;
    if us == [] {
      assert us + vs == vs;
    } else {
      OctetsOfUnitsConcat(e, us[1..], vs);
      TailOfConcat(us, vs);
      AddFirst(e, us);
      AddFirst(e, us + vs);
      hide OctetsOfUnits;
    }
  }

  lemma TailOfConcat<T>(s: seq<T>, t: seq<T>)
    requires s != []
    ensures s + t != [] && (s + t)[0] == s[0] && (s + t)[1..] == s[1..] + t
  {
  }

  lemma AddFirst(e: Endian, us: seq<bv16>)
    requires us != []
    ensures OctetsOfUnits(e, us) == [First(e, us[0] as bv32), Second(e, us[0] as bv32)] + OctetsOfUnits(e, us[1..])
  {
  }

  lemma OctetsOfCharacter(e: Endian, c: bv32)
    requires IsScalar(c)
    ensures OctetsOfUnits(e, Utf16Of(c)) == Utf16Octets(e, c)
  {
    hide First, Second, Low16, High, Low, IsScalar;
    if c < 0x10000 {
      UnitOf(c);
      OctetsOfOne(e, Low16(c));
    } else {
      PairSmall(c);
      UnitOf(High(c));
      UnitOf(Low(c));
      OctetsOfTwo(e, Low16(High(c)), Low16(Low(c)));
    }
  }

  lemma OctetsOfOne(e: Endian, w: bv16)
    ensures OctetsOfUnits(e, [w]) == [First(e, w as bv32), Second(e, w as bv32)]
  {
    hide First, Second;
    assert [w][1..] == [];
  }

  lemma OctetsOfTwo(e: Endian, w: bv16, v: bv16)
    ensures OctetsOfUnits(e, [w, v]) ==
            [First(e, w as bv32), Second(e, w as bv32), First(e, v as bv32), Second(e, v as bv32)]
  {
    hide First, Second;
    OctetsOfOne(e, v);
    assert [w, v][1..] == [v];
  }

  lemma {:induction false} OctetsOfText(e: Endian, m: bv32, cs: seq<bv32>)
    requires AllIn(UpTo(m), cs)
    ensures OctetsOfUnits(e, Text(Utf16Of, cs)) == Text(Utf16OctetsOf(e), cs)
    decreases |cs|
  {
    if cs != [] {
      hide OctetsOfUnits, Utf16Of, Utf16Octets;
      var c := cs[0];
      assert UpTo(m)(c);
      OctetsOfCharacter(e, c);
      OctetsOfText(e, m, cs[1..]);
      OctetsOfUnitsConcat(e, Utf16Of(c), Text(Utf16Of, cs[1..]));
    } else {
      NoOctets(e);
    }
  }

  lemma NoOctets(e: Endian)
    ensures OctetsOfUnits(e, []) == []
  {
  }

  /**
   From UCS-4, the way over UTF-8 to UTF-16 gives the units that the direct way writes
   as octets, in either order; both ways stop at the same character of any input; and
   the UTF-16 units convert back to the UTF-8 octets.
   */
  lemma Diagram(e: Endian, m: bv32, f: seq<bv32>, room: nat, room': nat)
    requires m <= 0x10FFFF && LeadsFit(m) && 4 * |f| <= room && 16 * |f| <= room'
    ensures var u8, octets := ConvertUcs4ToUtf8(m, f, room), ConvertUcs4ToUtf16(e, m, f, room);
            var u16 := ConvertUtf8ToUtf16(m, u8.out, room');
            && u8.consumed == octets.consumed && (u8.result == Ok <==> octets.result == Ok)
            && u16.result == Ok && u16.consumed == |u8.out| && OctetsOfUnits(e, u16.out) == octets.out
            && ConvertUtf16ToUtf8(m, u16.out, room) == Outcome(Ok, |u16.out|, u8.out)
  {
    hide OctetsOfUnits, Utf8Of, Utf16Of, Utf16Octets, LeadsFit, IsScalar;
    Ucs4ToUtf8IsCodec(m);
    Ucs4ToUtf8Translates(m);
    Ucs4ToUtf16IsCodec(e, m);
    Ucs4ToUtf16Translates(e, m);
    WidthsFromUtf8(m);
    WidthsOfUtf16(e, m);
    hide Bounded, Monotone, Translates, Convert, Narrow;
    var cs := SameCharacters(Ucs4ToUtf8(m), Ucs4ToUtf16(e, m), Ucs4Of, Utf8Of, Utf16OctetsOf(e), UpTo(m),
                             f, room, room);
    TextWidth(Ucs4Of, Utf8Of, UpTo(m), cs);
    OctetsOfText(e, m, cs);
    DiagramSide(m, cs, room, room');
  }

  lemma DiagramSide(m: bv32, cs: seq<bv32>, room: nat, room': nat)
    requires LeadsFit(m) && AllIn(UpTo(m), cs)
    requires |Text(Utf8Of, cs)| <= room && 4 * |Text(Utf8Of, cs)| <= room'
    ensures ConvertUtf8ToUtf16(m, Text(Utf8Of, cs), room') == Outcome(Ok, |Text(Utf8Of, cs)|, Text(Utf16Of, cs))
    ensures ConvertUtf16ToUtf8(m, Text(Utf16Of, cs), room) == Outcome(Ok, |Text(Utf16Of, cs)|, Text(Utf8Of, cs))
  {
    hide Utf8Of, Utf16Of, LeadsFit, IsScalar;
    Utf8ToUtf16IsCodec(m);
    Utf8ToUtf16Translates(m);
    Utf16ToUtf8IsCodec(m);
    Utf16ToUtf8Translates(m);
    WidthsFromUtf8(m);
    AllLeadsFit(m, cs);
    hide Bounded, Monotone, Translates, Convert, Narrow;
    TextWidth(Utf8Of, Utf16Of, LeadUpTo(m), cs);
    EveryCharacter(Utf8ToUtf16(m), Utf8Of, Utf16Of, LeadUpTo(m), cs, room');
    EveryCharacter(Utf16ToUtf8(m), Utf16Of, Utf8Of, UpTo(m), cs, room);
  }

  lemma AllLeadsFit(m: bv32, cs: seq<bv32>)
    requires LeadsFit(m) && AllIn(UpTo(m), cs)
    ensures AllIn(LeadUpTo(m), cs)
  {
  }

  // -- section 4 of RFC 3629

  predicate Tail(b: bv8) { 0x80 <= b <= 0xBF }

  predicate Char2(a: bv8, b: bv8) { 0xC2 <= a <= 0xDF && Tail(b) }

  predicate Char3(a: bv8, b: bv8, c: bv8) {
    || (a == 0xE0 && 0xA0 <= b <= 0xBF && Tail(c))
    || (0xE1 <= a <= 0xEC && Tail(b) && Tail(c))
    || (a == 0xED && 0x80 <= b <= 0x9F && Tail(c))
    || (0xEE <= a <= 0xEF && Tail(b) && Tail(c))
  }

  predicate Char4(a: bv8, b: bv8, c: bv8, d: bv8) {
    || (a == 0xF0 && 0x90 <= b <= 0xBF && Tail(c) && Tail(d))
    || (0xF1 <= a <= 0xF3 && Tail(b) && Tail(c) && Tail(d))
    || (a == 0xF4 && 0x80 <= b <= 0x8F && Tail(c) && Tail(d))
  }

  /** UTF8-char */
  predicate IsUtf8Char(s: seq<bv8>) {
    || (|s| == 1 && s[0] <= 0x7F)
    || (|s| == 2 && Char2(s[0], s[1]))
    || (|s| == 3 && Char3(s[0], s[1], s[2]))
    || (|s| == 4 && Char4(s[0], s[1], s[2], s[3]))
  }

  /** UTF8-octets, any number of UTF8-char */
  ghost predicate IsUtf8(s: seq<bv8>)
    decreases |s|
  {
    s == [] || exists n :: 1 <= n <= |s| && IsUtf8Char(s[..n]) && IsUtf8(s[n..])
  }

  lemma GrammarIsValid(a: bv8, b: bv8, c: bv8, d: bv8)
    ensures Char2(a, b) <==> Valid2(a, b)
    ensures Char3(a, b, c) <==> Valid3(a, b, c)
    ensures Char4(a, b, c, d) <==> Valid4(a, b, c, d)
  {
  }

  lemma SpelledChar(s: seq<bv8>) returns (c: bv32)
    requires IsUtf8Char(s)
    ensures IsScalar(c) && Utf8Of(c) == s
  {
    hide Decode2, Decode3, Decode4, Valid2, Valid3, Valid4, Char2, Char3, Char4, Spells, Utf8Of, IsScalar, Octet;
    OctetsOfSeq(s);
    var n, c1, c2, c3, c4 := |s|, Octet(s, 0), Octet(s, 1), Octet(s, 2), Octet(s, 3);
    GrammarIsValid(c1, c2, c3, c4);
    if n == 1 {
      Spelled1(n, c1, c2, c3, c4);
      c := c1 as bv32;
    } else if n == 2 {
      Spelled2(n, c1, c2, c3, c4);
      c := Decode2(c1, c2);
    } else if n == 3 {
      Spelled3(n, c1, c2, c3, c4);
      c := Decode3(c1, c2, c3);
    } else {
      Spelled4(n, c1, c2, c3, c4);
      c := Decode4(c1, c2, c3, c4);
    }
    SpellsPrefix(c, s);
  }

  lemma OctetsOfSeq(s: seq<bv8>)
    ensures forall i :: 0 <= i < |s| ==> Octet(s, i) == s[i]
  {
  }

  lemma CharIsGrammar(c: bv32)
    requires IsScalar(c)
    ensures IsUtf8Char(Utf8Of(c))
  {
  }

  lemma {:induction false} Utf8IsText(s: seq<bv8>) returns (cs: seq<bv32>)
    requires IsUtf8(s)
    ensures AllIn(UpTo(0x10FFFF), cs) && s == Text(Utf8Of, cs)
    decreases |s|
  {
    hide IsUtf8Char, Utf8Of;
    if s == [] {
      cs := [];
    } else {
      var n :| 1 <= n <= |s| && IsUtf8Char(s[..n]) && IsUtf8(s[n..]);
      hide IsUtf8;
      var c := SpelledChar(s[..n]);
      var rest := Utf8IsText(s[n..]);
      cs := [c] + rest;
      TextCons(Utf8Of, c, rest);
      assert s == s[..n] + s[n..];
      assert UpTo(0x10FFFF)(c);
    }
  }

  lemma {:induction false} TextIsUtf8(cs: seq<bv32>)
    requires AllIn(UpTo(0x10FFFF), cs)
    ensures IsUtf8(Text(Utf8Of, cs))
    decreases |cs|
  {
    hide IsUtf8Char, Utf8Of, IsScalar;
    if cs != [] {
      var c, rest := cs[0], Text(Utf8Of, cs[1..]);
      assert UpTo(0x10FFFF)(c);
      TextIsUtf8(cs[1..]);
      CharIsGrammar(c);
      FirstOctet(c);
      AddChar(Utf8Of(c), rest);
    }
  }

  lemma AddChar(s: seq<bv8>, rest: seq<bv8>)
    requires s != [] && IsUtf8Char(s) && IsUtf8(rest)
    ensures IsUtf8(s + rest)
  {
    hide IsUtf8Char;
    var t := s + rest;
    assert t[..|s|] == s && t[|s|..] == rest;
  }

  /** With room, both decoders finish with ok exactly on the strings of the grammar. */
  lemma Utf8Exactly(s: seq<bv8>, room: nat)
    requires 4 * |s| <= room
    ensures ConvertUtf8ToUcs4(0x10FFFF, s, room).result == Ok <==> IsUtf8(s)
    ensures ConvertUtf8ToUtf16(0x10FFFF, s, room).result == Ok <==> IsUtf8(s)
  {
    var m: bv32 := 0x10FFFF;
    SameStrings(m, s, room);
    Utf8ToUcs4IsCodec(m);
    Utf8ToUcs4Translates(m);
    WidthsFromUtf8(m);
    hide Bounded, Monotone, Translates, Convert, Narrow, IsUtf8;
    FinishesExactlyOnTexts(Utf8ToUcs4(m), Utf8Of, Ucs4Of, UpTo(m), s, room);
    if IsUtf8(s) {
      var cs := Utf8IsText(s);
    }
    if cs :| AllIn(UpTo(m), cs) && s == Text(Utf8Of, cs) {
      TextIsUtf8(cs);
    }
  }

  /** The pad character U+0080 with Maxcode 0x80: one decoder takes it, the other reports an error. */
  lemma MaxcodeExample()
    ensures ConvertUtf8ToUcs4(0x80, [0xC2, 0x80], 1) == Outcome(Ok, 2, [0x80])
    ensures ConvertUtf8ToUtf16(0x80, [0xC2, 0x80], 1) == Outcome(Error, 0, [])
  {
    var s: seq<bv8> := [0xC2, 0x80];
    Utf8ToUcs4IsCodec(0x80);
    Utf8ToUtf16IsCodec(0x80);
    MaxcodeSteps();
    hide Bounded, Monotone, Utf8ToUcs4Char, Utf8ToUtf16Char;
    assert Octet(s, 0) == 0xC2 && Octet(s, 1) == 0x80 && Octet(s, 2) == 0 && Octet(s, 3) == 0;
    assert s[2..] == [];
    assert Convert(Utf8ToUcs4(0x80), s[2..], 0) == Outcome(Ok, 0, []);
  }

  lemma MaxcodeSteps()
    ensures Utf8ToUcs4Char(0x80, 2, 0xC2, 0x80, 0, 0, 1) == Take(2, [0x80])
    ensures Utf8ToUtf16Char(0x80, 2, 0xC2, 0x80, 0, 0, 1) == Stop(Error)
  {
  }
}
