/**
 Every converter of libcxx/src/locale.cpp is a codec that translates exactly the
 characters up to Maxcode from its input format to its output format.
 */
module CodecLaws {
  import opened CodecMachine
  import opened CodecBits
  import opened CodecSteps
  import opened CodecFormats

  // -- ucs4_to_utf8

  function Ucs4ToUtf8Unit(m: bv32): (r: UnitChar<bv8>) { (c: bv32, room: nat) => Ucs4ToUtf8Char(m, c, room) }

  lemma Ucs4ToUtf8IsCodec(m: bv32)
    ensures Codec(Ucs4ToUtf8(m))
  {
    var ch := Ucs4ToUtf8Unit(m);
    forall c: bv32, room: nat ensures UnitFits(ch, c, room) {
    }
    forall c: bv32, room: nat, room': nat | room <= room' ensures UnitSettled(ch, c, room, room') {
    }
    hide Ucs4ToUtf8Char, UnitFits, UnitSettled;
    Ucs4StepsAreCodec(Ucs4ToUtf8(m), ch);
  }

  lemma Ucs4ToUtf8Writes(m: bv32, c: bv32, room: nat)
    requires m <= 0x10FFFF
    ensures Ucs4ToUtf8Char(m, c, room).Take? <==> InRange(m, c) && |Utf8Of(c)| <= room
    ensures Ucs4ToUtf8Char(m, c, room).Take? ==> Ucs4ToUtf8Char(m, c, room) == Take(1, Utf8Of(c))
  {
  }

  lemma Ucs4ToUtf8Translates(m: bv32)
    requires m <= 0x10FFFF
    ensures Translates(Ucs4ToUtf8(m), Ucs4Of, Utf8Of, UpTo(m))
  {
    var ch := Ucs4ToUtf8Unit(m);
    hide Ucs4ToUtf8Char, Utf8Of, InRange;
    forall c: bv32, room: nat ensures WritesAs(ch, Utf8Of, UpTo(m), c, room) {
      Ucs4ToUtf8Writes(m, c, room);
    }
    hide WritesAs;
    Ucs4StepsTranslate(Ucs4ToUtf8(m), ch, Utf8Of, UpTo(m));
  }

  /** With any Maxcode the characters up to it are taken. */
  lemma Ucs4ToUtf8Accepts(m: bv32)
    ensures Accepts(Ucs4ToUtf8(m), Ucs4Of, Utf8Of, UpTo(m))
  {
    forall c, g, room: nat | UpTo(m)(c) ensures TakesAll(Ucs4ToUtf8(m), Ucs4Of, Utf8Of, c, g, room) {
      assert (Ucs4Of(c) + g)[0] == c;
      if |Utf8Of(c)| <= room {
        Ucs4ToUtf8Takes(m, c, room);
      }
      hide Ucs4ToUtf8Char, Utf8Of, InRange;
    }
  }

  lemma Ucs4ToUtf8Takes(m: bv32, c: bv32, room: nat)
    requires InRange(m, c) && |Utf8Of(c)| <= room
    ensures Ucs4ToUtf8Char(m, c, room) == Take(1, Utf8Of(c))
  {
  }

  /** With a larger Maxcode the encoders also take numbers that are no characters. */
  lemma Ucs4ToUtf8TranslatesExactly(m: bv32)
    ensures Translates(Ucs4ToUtf8(m), Ucs4Of, Utf8Of, UpTo(m)) <==> m <= 0x10FFFF
  {
    if m <= 0x10FFFF {
      Ucs4ToUtf8Translates(m);
    } else {
      var step, f := Ucs4ToUtf8(m), [BEYOND];
      assert step(f, 4).Take?;
      assert !TakesOnly(step, Ucs4Of, Utf8Of, UpTo(m), f, 4);
    }
  }

  /** The first number after those of the characters. */
  const BEYOND: bv32 := 0x110000

  // -- ucs4_to_utf16be, ucs4_to_utf16le

  function Ucs4ToUtf16Unit(e: Endian, m: bv32): (r: UnitChar<bv8>) {
    (c: bv32, room: nat) => Ucs4ToUtf16Char(e, m, c, room)
  }

  lemma Ucs4ToUtf16IsCodec(e: Endian, m: bv32)
    ensures Codec(Ucs4ToUtf16(e, m))
  {
    var ch := Ucs4ToUtf16Unit(e, m);
    forall c: bv32, room: nat ensures UnitFits(ch, c, room) {
    }
    forall c: bv32, room: nat, room': nat | room <= room' ensures UnitSettled(ch, c, room, room') {
    }
    hide Ucs4ToUtf16Char, UnitFits, UnitSettled;
    Ucs4StepsAreCodec(Ucs4ToUtf16(e, m), ch);
  }

  lemma Ucs4ToUtf16Writes(e: Endian, m: bv32, c: bv32, room: nat)
    requires m <= 0x10FFFF
    ensures Ucs4ToUtf16Char(e, m, c, room).Take? <==> InRange(m, c) && |Utf16Octets(e, c)| <= room
    ensures Ucs4ToUtf16Char(e, m, c, room).Take? ==> Ucs4ToUtf16Char(e, m, c, room) == Take(1, Utf16Octets(e, c))
  {
  }

  lemma Ucs4ToUtf16Translates(e: Endian, m: bv32)
    requires m <= 0x10FFFF
    ensures Translates(Ucs4ToUtf16(e, m), Ucs4Of, Utf16OctetsOf(e), UpTo(m))
  {
    var ch := Ucs4ToUtf16Unit(e, m);
    hide Ucs4ToUtf16Char, Utf16Octets, InRange;
    forall c: bv32, room: nat ensures WritesAs(ch, Utf16OctetsOf(e), UpTo(m), c, room) {
      Ucs4ToUtf16Writes(e, m, c, room);
    }
    hide WritesAs;
    Ucs4StepsTranslate(Ucs4ToUtf16(e, m), ch, Utf16OctetsOf(e), UpTo(m));
  }

  lemma Ucs4ToUtf16Accepts(e: Endian, m: bv32)
    ensures Accepts(Ucs4ToUtf16(e, m), Ucs4Of, Utf16OctetsOf(e), UpTo(m))
  {
    forall c, g, room: nat | UpTo(m)(c) ensures TakesAll(Ucs4ToUtf16(e, m), Ucs4Of, Utf16OctetsOf(e), c, g, room) {
      assert (Ucs4Of(c) + g)[0] == c;
      if |Utf16Octets(e, c)| <= room {
        Ucs4ToUtf16Takes(e, m, c, room);
      }
      hide Ucs4ToUtf16Char, Utf16Octets, InRange;
    }
  }

  lemma Ucs4ToUtf16Takes(e: Endian, m: bv32, c: bv32, room: nat)
    requires InRange(m, c) && |Utf16Octets(e, c)| <= room
    ensures Ucs4ToUtf16Char(e, m, c, room) == Take(1, Utf16Octets(e, c))
  {
  }

  lemma Ucs4ToUtf16TranslatesExactly(e: Endian, m: bv32)
    ensures Translates(Ucs4ToUtf16(e, m), Ucs4Of, Utf16OctetsOf(e), UpTo(m)) <==> m <= 0x10FFFF
  {
    if m <= 0x10FFFF {
      Ucs4ToUtf16Translates(e, m);
    } else {
      var step, f := Ucs4ToUtf16(e, m), [BEYOND];
      assert step(f, 4).Take?;
      assert !TakesOnly(step, Ucs4Of, Utf16OctetsOf(e), UpTo(m), f, 4);
    }
  }

  // -- ucs2_to_utf8

  function Ucs2ToUtf8Unit(m: bv32): (r: UnitChar<bv8>) { (c: bv32, room: nat) => Ucs2ToUtf8Char(m, c, room) }

  lemma Ucs2ToUtf8IsCodec(m: bv32)
    ensures Codec(Ucs2ToUtf8(m))
  {
    var ch := Ucs2ToUtf8Unit(m);
    forall c: bv32, room: nat ensures UnitFits(ch, c, room) {
    }
    forall c: bv32, room: nat, room': nat | room <= room' ensures UnitSettled(ch, c, room, room') {
    }
    hide Ucs2ToUtf8Char, UnitFits, UnitSettled;
    Ucs2StepsAreCodec(Ucs2ToUtf8(m), ch);
  }

  lemma Ucs2ToUtf8Writes(m: bv32, c: bv32, room: nat)
    requires c < 0x10000
    ensures Ucs2ToUtf8Char(m, c, room).Take? <==> InNarrowRange(m, c) && |Utf8Of(c)| <= room
    ensures Ucs2ToUtf8Char(m, c, room).Take? ==> Ucs2ToUtf8Char(m, c, room) == Take(1, Utf8Of(c))
  {
  }

  lemma Ucs2ToUtf8Translates(m: bv32)
    ensures Translates(Ucs2ToUtf8(m), Ucs2Of, Utf8Of, NarrowUpTo(m))
  {
    var ch := Ucs2ToUtf8Unit(m);
    hide Ucs2ToUtf8Char, Utf8Of, IsScalar;
    forall c: bv32, room: nat | c < 0x10000 ensures WritesAs(ch, Utf8Of, NarrowUpTo(m), c, room) {
      Ucs2ToUtf8Writes(m, c, room);
    }
    hide WritesAs;
    Ucs2StepsTranslate(Ucs2ToUtf8(m), ch, Utf8Of, NarrowUpTo(m));
  }

  // -- ucs2_to_utf16be, ucs2_to_utf16le

  function Ucs2ToUtf16Unit(e: Endian, m: bv32): (r: UnitChar<bv8>) {
    (c: bv32, room: nat) => Ucs2ToUtf16Char(e, m, c, room)
  }

  lemma Ucs2ToUtf16IsCodec(e: Endian, m: bv32)
    ensures Codec(Ucs2ToUtf16(e, m))
  {
    var ch := Ucs2ToUtf16Unit(e, m);
    forall c: bv32, room: nat ensures UnitFits(ch, c, room) {
    }
    forall c: bv32, room: nat, room': nat | room <= room' ensures UnitSettled(ch, c, room, room') {
    }
    hide Ucs2ToUtf16Char, UnitFits, UnitSettled;
    Ucs2StepsAreCodec(Ucs2ToUtf16(e, m), ch);
  }

  lemma Ucs2ToUtf16Writes(e: Endian, m: bv32, c: bv32, room: nat)
    requires c < 0x10000
    ensures Ucs2ToUtf16Char(e, m, c, room).Take? <==> InNarrowRange(m, c) && |Utf16Octets(e, c)| <= room
    ensures Ucs2ToUtf16Char(e, m, c, room).Take? ==> Ucs2ToUtf16Char(e, m, c, room) == Take(1, Utf16Octets(e, c))
  {
  }

  lemma Ucs2ToUtf16Translates(e: Endian, m: bv32)
    ensures Translates(Ucs2ToUtf16(e, m), Ucs2Of, Utf16OctetsOf(e), NarrowUpTo(m))
  {
    var ch := Ucs2ToUtf16Unit(e, m);
    hide Ucs2ToUtf16Char, Utf16Octets, IsScalar;
    forall c: bv32, room: nat | c < 0x10000 ensures WritesAs(ch, Utf16OctetsOf(e), NarrowUpTo(m), c, room) {
      Ucs2ToUtf16Writes(e, m, c, room);
    }
    hide WritesAs;
    Ucs2StepsTranslate(Ucs2ToUtf16(e, m), ch, Utf16OctetsOf(e), NarrowUpTo(m));
  }

  // -- decoding UTF-8: the units of a character, from its octets

  lemma UnitsOf2(c1: bv8, c2: bv8)
    requires Valid2(c1, c2)
    ensures var c := Decode2(c1, c2); Utf16Of(c) == [Low16(c)] == Ucs2Of(c)
  {
    Decoded2(c1, c2);
    hide Low16, Decode2, Valid2;
  }

  lemma UnitsOf3(c1: bv8, c2: bv8, c3: bv8)
    requires Valid3(c1, c2, c3)
    ensures var c := Decode3(c1, c2, c3); Utf16Of(c) == [Low16(c)] == Ucs2Of(c)
  {
    Decoded3(c1, c2, c3);
    hide Low16, Decode3, Valid3;
  }

  lemma UnitsOf4(c1: bv8, c2: bv8, c3: bv8, c4: bv8)
    requires Valid4(c1, c2, c3, c4)
    ensures Utf16Of(Decode4(c1, c2, c3, c4)) == [Low16(HighOfOctets(c1, c2, c3)), Low16(LowOfOctets(c3, c4))]
  {
    Decoded4(c1, c2, c3, c4);
    OctetPair(c1, c2, c3, c4);
    hide Low16, Decode4, Valid4, High, Low, HighOfOctets, LowOfOctets;
  }

  // -- utf8_to_ucs4

  function Utf8ToUcs4Octets(m: bv32): (r: OctetChar<bv32>) {
    (n: nat, c1: bv8, c2: bv8, c3: bv8, c4: bv8, room: nat) => Utf8ToUcs4Char(m, n, c1, c2, c3, c4, room)
  }

  lemma Utf8ToUcs4Measured(m: bv32)
    ensures Measured(Utf8ToUcs4Octets(m))
  {
  }

  lemma Utf8ToUcs4Settled(m: bv32)
    ensures Settled(Utf8ToUcs4Octets(m))
  {
  }

  lemma Utf8ToUcs4Blinkered(m: bv32)
    ensures Blinkered(Utf8ToUcs4Octets(m))
  {
  }

  lemma Utf8ToUcs4IsCodec(m: bv32)
    ensures Codec(Utf8ToUcs4(m))
  {
    Utf8ToUcs4Measured(m);
    Utf8ToUcs4Settled(m);
    Utf8ToUcs4Blinkered(m);
    hide Measured, Settled, Blinkered, Utf8ToUcs4Char, Octet;
    OctetStepsAreCodec(Utf8ToUcs4(m), Utf8ToUcs4Octets(m));
  }

  lemma Utf8ToUcs4On2(m: bv32, n: nat, c1: bv8, c2: bv8, c3: bv8, c4: bv8, room: nat)
    requires 0x80 <= c1 < 0xE0
    ensures Utf8ToUcs4Char(m, n, c1, c2, c3, c4, room).Take? <==>
              n >= 2 && Valid2(c1, c2) && room >= 1 && Decode2(c1, c2) <= m
    ensures Utf8ToUcs4Char(m, n, c1, c2, c3, c4, room).Take? ==>
              Utf8ToUcs4Char(m, n, c1, c2, c3, c4, room) == Take(2, [Decode2(c1, c2)])
  {
  }

  lemma Utf8ToUcs4On3(m: bv32, n: nat, c1: bv8, c2: bv8, c3: bv8, c4: bv8, room: nat)
    requires 0xE0 <= c1 < 0xF0
    ensures Utf8ToUcs4Char(m, n, c1, c2, c3, c4, room).Take? <==>
              n >= 3 && Valid3(c1, c2, c3) && room >= 1 && Decode3(c1, c2, c3) <= m
    ensures Utf8ToUcs4Char(m, n, c1, c2, c3, c4, room).Take? ==>
              Utf8ToUcs4Char(m, n, c1, c2, c3, c4, room) == Take(3, [Decode3(c1, c2, c3)])
  {
  }

  lemma Utf8ToUcs4On4(m: bv32, n: nat, c1: bv8, c2: bv8, c3: bv8, c4: bv8, room: nat)
    requires 0xF0 <= c1
    ensures Utf8ToUcs4Char(m, n, c1, c2, c3, c4, room).Take? <==>
              n >= 4 && Valid4(c1, c2, c3, c4) && room >= 1 && Decode4(c1, c2, c3, c4) <= m
    ensures Utf8ToUcs4Char(m, n, c1, c2, c3, c4, room).Take? ==>
              Utf8ToUcs4Char(m, n, c1, c2, c3, c4, room) == Take(4, [Decode4(c1, c2, c3, c4)])
  {
  }

  lemma Utf8ToUcs4Decodes1(m: bv32, n: nat, c1: bv8, c2: bv8, c3: bv8, c4: bv8, room: nat)
    requires c1 < 0x80
    ensures Fate(Utf8ToUcs4Char(m, n, c1, c2, c3, c4, room), 1, n >= 1, c1 as bv32, Ucs4Of, UpTo(m), room)
  {
  }

  lemma Utf8ToUcs4Decodes2(m: bv32, n: nat, c1: bv8, c2: bv8, c3: bv8, c4: bv8, room: nat)
    requires 0x80 <= c1 < 0xE0
    ensures Fate(Utf8ToUcs4Char(m, n, c1, c2, c3, c4, room), 2, n >= 2 && Valid2(c1, c2),
                 Decode2(c1, c2), Ucs4Of, UpTo(m), room)
  {
    hide Decode2, Decode3, Decode4, Valid2, Valid3, Valid4, Spells, Utf8ToUcs4Char, IsScalar, Utf8Of;
    Utf8ToUcs4On2(m, n, c1, c2, c3, c4, room);
    if n >= 2 && Valid2(c1, c2) {
      Spelled2(n, c1, c2, c3, c4);
    }
  }

  lemma Utf8ToUcs4Decodes3(m: bv32, n: nat, c1: bv8, c2: bv8, c3: bv8, c4: bv8, room: nat)
    requires 0xE0 <= c1 < 0xF0
    ensures Fate(Utf8ToUcs4Char(m, n, c1, c2, c3, c4, room), 3, n >= 3 && Valid3(c1, c2, c3),
                 Decode3(c1, c2, c3), Ucs4Of, UpTo(m), room)
  {
    hide Decode2, Decode3, Decode4, Valid2, Valid3, Valid4, Spells, Utf8ToUcs4Char, IsScalar, Utf8Of;
    Utf8ToUcs4On3(m, n, c1, c2, c3, c4, room);
    if n >= 3 && Valid3(c1, c2, c3) {
      Spelled3(n, c1, c2, c3, c4);
    }
  }

  lemma Utf8ToUcs4Decodes4(m: bv32, n: nat, c1: bv8, c2: bv8, c3: bv8, c4: bv8, room: nat)
    requires 0xF0 <= c1
    ensures Fate(Utf8ToUcs4Char(m, n, c1, c2, c3, c4, room), 4, n >= 4 && Valid4(c1, c2, c3, c4),
                 Decode4(c1, c2, c3, c4), Ucs4Of, UpTo(m), room)
  {
    hide Decode2, Decode3, Decode4, Valid2, Valid3, Valid4, Spells, Utf8ToUcs4Char, IsScalar, Utf8Of;
    Utf8ToUcs4On4(m, n, c1, c2, c3, c4, room);
    if n >= 4 && Valid4(c1, c2, c3, c4) {
      Spelled4(n, c1, c2, c3, c4);
    }
  }

  lemma Utf8ToUcs4Translates(m: bv32)
    ensures Translates(Utf8ToUcs4(m), Utf8Of, Ucs4Of, UpTo(m))
  {
    var ch := Utf8ToUcs4Octets(m);
    hide Utf8ToUcs4Char, Ucs4Of, Utf8Of, Octet, IsScalar, Fate, Valid2, Valid3, Valid4, Decode2, Decode3, Decode4;
    forall n: nat, c1: bv8, c2: bv8, c3: bv8, c4: bv8, room: nat
      ensures DecodesAt(ch, Ucs4Of, UpTo(m), n, c1, c2, c3, c4, room)
    {
      if c1 < 0x80 {
        Utf8ToUcs4Decodes1(m, n, c1, c2, c3, c4, room);
      } else if c1 < 0xE0 {
        Utf8ToUcs4Decodes2(m, n, c1, c2, c3, c4, room);
      } else if c1 < 0xF0 {
        Utf8ToUcs4Decodes3(m, n, c1, c2, c3, c4, room);
      } else {
        Utf8ToUcs4Decodes4(m, n, c1, c2, c3, c4, room);
      }
    }
    hide DecodesAt;
    OctetStepsTranslate(Utf8ToUcs4(m), ch, Ucs4Of, UpTo(m));
  }

  // -- utf8_to_utf16

  function Utf8ToUtf16Octets(m: bv32): (r: OctetChar<bv16>) {
    (n: nat, c1: bv8, c2: bv8, c3: bv8, c4: bv8, room: nat) => Utf8ToUtf16Char(m, n, c1, c2, c3, c4, room)
  }

  lemma Utf8ToUtf16Measured(m: bv32)
    ensures Measured(Utf8ToUtf16Octets(m))
  {
  }

  lemma Utf8ToUtf16Settled(m: bv32)
    ensures Settled(Utf8ToUtf16Octets(m))
  {
  }

  lemma Utf8ToUtf16Blinkered(m: bv32)
    ensures Blinkered(Utf8ToUtf16Octets(m))
  {
  }

  lemma Utf8ToUtf16IsCodec(m: bv32)
    ensures Codec(Utf8ToUtf16(m))
  {
    Utf8ToUtf16Measured(m);
    Utf8ToUtf16Settled(m);
    Utf8ToUtf16Blinkered(m);
    hide Measured, Settled, Blinkered, Utf8ToUtf16Char, Octet;
    OctetStepsAreCodec(Utf8ToUtf16(m), Utf8ToUtf16Octets(m));
  }

  lemma Utf8ToUtf16On2(m: bv32, n: nat, c1: bv8, c2: bv8, c3: bv8, c4: bv8, room: nat)
    requires 0x80 <= c1 < 0xE0
    ensures Utf8ToUtf16Char(m, n, c1, c2, c3, c4, room).Take? <==>
              n >= 2 && Valid2(c1, c2) && room >= 1 && c1 as bv32 <= m && Decode2(c1, c2) <= m
    ensures Utf8ToUtf16Char(m, n, c1, c2, c3, c4, room).Take? ==>
              Utf8ToUtf16Char(m, n, c1, c2, c3, c4, room) == Take(2, [Low16(Decode2(c1, c2))])
  {
  }

  lemma Utf8ToUtf16On3(m: bv32, n: nat, c1: bv8, c2: bv8, c3: bv8, c4: bv8, room: nat)
    requires 0xE0 <= c1 < 0xF0
    ensures Utf8ToUtf16Char(m, n, c1, c2, c3, c4, room).Take? <==>
              n >= 3 && Valid3(c1, c2, c3) && room >= 1 && c1 as bv32 <= m && Decode3(c1, c2, c3) <= m
    ensures Utf8ToUtf16Char(m, n, c1, c2, c3, c4, room).Take? ==>
              Utf8ToUtf16Char(m, n, c1, c2, c3, c4, room) == Take(3, [Low16(Decode3(c1, c2, c3))])
  {
  }

  lemma Utf8ToUtf16On4(m: bv32, n: nat, c1: bv8, c2: bv8, c3: bv8, c4: bv8, room: nat)
    requires 0xF0 <= c1
    ensures Utf8ToUtf16Char(m, n, c1, c2, c3, c4, room).Take? <==>
              n >= 4 && Valid4(c1, c2, c3, c4) && room >= 2 && c1 as bv32 <= m && Decode4(c1, c2, c3, c4) <= m
    ensures Utf8ToUtf16Char(m, n, c1, c2, c3, c4, room).Take? ==>
              Utf8ToUtf16Char(m, n, c1, c2, c3, c4, room) ==
              Take(4, [Low16(HighOfOctets(c1, c2, c3)), Low16(LowOfOctets(c3, c4))])
  {
  }

  lemma Utf8ToUtf16Decodes1(m: bv32, n: nat, c1: bv8, c2: bv8, c3: bv8, c4: bv8, room: nat)
    requires c1 < 0x80
    ensures Fate(Utf8ToUtf16Char(m, n, c1, c2, c3, c4, room), 1, n >= 1, c1 as bv32, Utf16Of, LeadUpTo(m), room)
  {
  }

  lemma Utf8ToUtf16Decodes2(m: bv32, n: nat, c1: bv8, c2: bv8, c3: bv8, c4: bv8, room: nat)
    requires 0x80 <= c1 < 0xE0
    ensures Fate(Utf8ToUtf16Char(m, n, c1, c2, c3, c4, room), 2, n >= 2 && Valid2(c1, c2),
                 Decode2(c1, c2), Utf16Of, LeadUpTo(m), room)
  {
    hide Decode2, Decode3, Decode4, Valid2, Valid3, Valid4, Spells, Utf8ToUtf16Char, Utf16Of, IsScalar, Utf8Of;
    Utf8ToUtf16On2(m, n, c1, c2, c3, c4, room);
    if n >= 2 && Valid2(c1, c2) {
      Spelled2(n, c1, c2, c3, c4);
      UnitsOf2(c1, c2);
      SpellsLead(Decode2(c1, c2), n, c1, c2, c3, c4);
    }
  }

  lemma Utf8ToUtf16Decodes3(m: bv32, n: nat, c1: bv8, c2: bv8, c3: bv8, c4: bv8, room: nat)
    requires 0xE0 <= c1 < 0xF0
    ensures Fate(Utf8ToUtf16Char(m, n, c1, c2, c3, c4, room), 3, n >= 3 && Valid3(c1, c2, c3),
                 Decode3(c1, c2, c3), Utf16Of, LeadUpTo(m), room)
  {
    hide Decode2, Decode3, Decode4, Valid2, Valid3, Valid4, Spells, Utf8ToUtf16Char, Utf16Of, IsScalar, Utf8Of;
    Utf8ToUtf16On3(m, n, c1, c2, c3, c4, room);
    if n >= 3 && Valid3(c1, c2, c3) {
      Spelled3(n, c1, c2, c3, c4);
      UnitsOf3(c1, c2, c3);
      SpellsLead(Decode3(c1, c2, c3), n, c1, c2, c3, c4);
    }
  }

  lemma Utf8ToUtf16Decodes4(m: bv32, n: nat, c1: bv8, c2: bv8, c3: bv8, c4: bv8, room: nat)
    requires 0xF0 <= c1
    ensures Fate(Utf8ToUtf16Char(m, n, c1, c2, c3, c4, room), 4, n >= 4 && Valid4(c1, c2, c3, c4),
                 Decode4(c1, c2, c3, c4), Utf16Of, LeadUpTo(m), room)
  {
    hide Decode2, Decode3, Decode4, Valid2, Valid3, Valid4, Spells, Utf8ToUtf16Char, Utf16Of, IsScalar, Utf8Of;
    Utf8ToUtf16On4(m, n, c1, c2, c3, c4, room);
    if n >= 4 && Valid4(c1, c2, c3, c4) {
      Spelled4(n, c1, c2, c3, c4);
      UnitsOf4(c1, c2, c3, c4);
      SpellsLead(Decode4(c1, c2, c3, c4), n, c1, c2, c3, c4);
    }
  }

  lemma Utf8ToUtf16Translates(m: bv32)
    ensures Translates(Utf8ToUtf16(m), Utf8Of, Utf16Of, LeadUpTo(m))
  {
    var ch := Utf8ToUtf16Octets(m);
    hide Utf8ToUtf16Char, Utf16Of, Utf8Of, Octet, IsScalar, Fate, Valid2, Valid3, Valid4, Decode2, Decode3, Decode4;
    forall n: nat, c1: bv8, c2: bv8, c3: bv8, c4: bv8, room: nat
      ensures DecodesAt(ch, Utf16Of, LeadUpTo(m), n, c1, c2, c3, c4, room)
    {
      if c1 < 0x80 {
        Utf8ToUtf16Decodes1(m, n, c1, c2, c3, c4, room);
      } else if c1 < 0xE0 {
        Utf8ToUtf16Decodes2(m, n, c1, c2, c3, c4, room);
      } else if c1 < 0xF0 {
        Utf8ToUtf16Decodes3(m, n, c1, c2, c3, c4, room);
      } else {
        Utf8ToUtf16Decodes4(m, n, c1, c2, c3, c4, room);
      }
    }
    hide DecodesAt;
    OctetStepsTranslate(Utf8ToUtf16(m), ch, Utf16Of, LeadUpTo(m));
  }

  // -- utf8_to_ucs2

  function Utf8ToUcs2Octets(m: bv32): (r: OctetChar<bv16>) {
    (n: nat, c1: bv8, c2: bv8, c3: bv8, c4: bv8, room: nat) => Utf8ToUcs2Char(m, n, c1, c2, c3, room)
  }

  lemma Utf8ToUcs2Measured(m: bv32)
    ensures Measured(Utf8ToUcs2Octets(m))
  {
  }

  lemma Utf8ToUcs2Settled(m: bv32)
    ensures Settled(Utf8ToUcs2Octets(m))
  {
  }

  lemma Utf8ToUcs2Blinkered(m: bv32)
    ensures Blinkered(Utf8ToUcs2Octets(m))
  {
  }

  lemma Utf8ToUcs2IsCodec(m: bv32)
    ensures Codec(Utf8ToUcs2(m))
  {
    Utf8ToUcs2Measured(m);
    Utf8ToUcs2Settled(m);
    Utf8ToUcs2Blinkered(m);
    hide Measured, Settled, Blinkered, Utf8ToUcs2Char, Octet;
    OctetStepsAreCodec(Utf8ToUcs2(m), Utf8ToUcs2Octets(m));
  }

  lemma Utf8ToUcs2On2(m: bv32, n: nat, c1: bv8, c2: bv8, c3: bv8, c4: bv8, room: nat)
    requires 0x80 <= c1 < 0xE0
    ensures Utf8ToUcs2Char(m, n, c1, c2, c3, room).Take? <==>
              n >= 2 && Valid2(c1, c2) && room >= 1 && Decode2(c1, c2) <= m
    ensures Utf8ToUcs2Char(m, n, c1, c2, c3, room).Take? ==>
              Utf8ToUcs2Char(m, n, c1, c2, c3, room) == Take(2, [Low16(Decode2(c1, c2))])
  {
  }

  lemma Utf8ToUcs2On3(m: bv32, n: nat, c1: bv8, c2: bv8, c3: bv8, c4: bv8, room: nat)
    requires 0xE0 <= c1 < 0xF0
    ensures Utf8ToUcs2Char(m, n, c1, c2, c3, room).Take? <==>
              n >= 3 && Valid3(c1, c2, c3) && room >= 1 && Decode3(c1, c2, c3) <= m
    ensures Utf8ToUcs2Char(m, n, c1, c2, c3, room).Take? ==>
              Utf8ToUcs2Char(m, n, c1, c2, c3, room) == Take(3, [Low16(Decode3(c1, c2, c3))])
  {
  }

  lemma Utf8ToUcs2Decodes1(m: bv32, n: nat, c1: bv8, c2: bv8, c3: bv8, c4: bv8, room: nat)
    requires c1 < 0x80
    ensures Fate(Utf8ToUcs2Char(m, n, c1, c2, c3, room), 1, n >= 1, c1 as bv32, Ucs2Of, NarrowUpTo(m), room)
  {
  }

  lemma Utf8ToUcs2Decodes2(m: bv32, n: nat, c1: bv8, c2: bv8, c3: bv8, c4: bv8, room: nat)
    requires 0x80 <= c1 < 0xE0
    ensures Fate(Utf8ToUcs2Char(m, n, c1, c2, c3, room), 2, n >= 2 && Valid2(c1, c2),
                 Decode2(c1, c2), Ucs2Of, NarrowUpTo(m), room)
  {
    hide Decode2, Decode3, Decode4, Valid2, Valid3, Valid4, Spells, Utf8ToUcs2Char, Ucs2Of, IsScalar, Utf8Of;
    Utf8ToUcs2On2(m, n, c1, c2, c3, c4, room);
    if n >= 2 && Valid2(c1, c2) {
      Spelled2(n, c1, c2, c3, c4);
      UnitsOf2(c1, c2);
    }
  }

  lemma Utf8ToUcs2Decodes3(m: bv32, n: nat, c1: bv8, c2: bv8, c3: bv8, c4: bv8, room: nat)
    requires 0xE0 <= c1 < 0xF0
    ensures Fate(Utf8ToUcs2Char(m, n, c1, c2, c3, room), 3, n >= 3 && Valid3(c1, c2, c3),
                 Decode3(c1, c2, c3), Ucs2Of, NarrowUpTo(m), room)
  {
    hide Decode2, Decode3, Decode4, Valid2, Valid3, Valid4, Spells, Utf8ToUcs2Char, Ucs2Of, IsScalar, Utf8Of;
    Utf8ToUcs2On3(m, n, c1, c2, c3, c4, room);
    if n >= 3 && Valid3(c1, c2, c3) {
      Spelled3(n, c1, c2, c3, c4);
      UnitsOf3(c1, c2, c3);
    }
  }

  lemma Utf8ToUcs2Decodes4(m: bv32, n: nat, c1: bv8, c2: bv8, c3: bv8, c4: bv8, room: nat)
    requires 0xF0 <= c1
    ensures Fate(Utf8ToUcs2Char(m, n, c1, c2, c3, room), 4, n >= 4 && Valid4(c1, c2, c3, c4),
                 Decode4(c1, c2, c3, c4), Ucs2Of, NarrowUpTo(m), room)
  {
  }

  lemma Utf8ToUcs2Translates(m: bv32)
    ensures Translates(Utf8ToUcs2(m), Utf8Of, Ucs2Of, NarrowUpTo(m))
  {
    var ch := Utf8ToUcs2Octets(m);
    hide Utf8ToUcs2Char, Ucs2Of, Utf8Of, Octet, IsScalar, Fate, Valid2, Valid3, Valid4, Decode2, Decode3, Decode4;
    forall n: nat, c1: bv8, c2: bv8, c3: bv8, c4: bv8, room: nat
      ensures DecodesAt(ch, Ucs2Of, NarrowUpTo(m), n, c1, c2, c3, c4, room)
    {
      if c1 < 0x80 {
        Utf8ToUcs2Decodes1(m, n, c1, c2, c3, c4, room);
      } else if c1 < 0xE0 {
        Utf8ToUcs2Decodes2(m, n, c1, c2, c3, c4, room);
      } else if c1 < 0xF0 {
        Utf8ToUcs2Decodes3(m, n, c1, c2, c3, c4, room);
      } else {
        Utf8ToUcs2Decodes4(m, n, c1, c2, c3, c4, room);
      }
    }
    hide DecodesAt;
    OctetStepsTranslate(Utf8ToUcs2(m), ch, Ucs2Of, NarrowUpTo(m));
  }

  // -- utf16_to_utf8

  lemma Utf16ToUtf8Limits(m: bv32, n: nat, w1: bv32, w2: bv32, room: nat)
    ensures match Utf16ToUtf8Char(m, n, w1, w2, room)
            case Take(k, o) => 1 <= k <= n && 1 <= |o| <= room
            case Stop(w) => w != Ok
  {
  }

  lemma Utf16ToUtf8Settles(m: bv32, n: nat, n': nat, w1: bv32, w2: bv32, room: nat, room': nat)
    requires n <= n' && room <= room' && Utf16ToUtf8Char(m, n, w1, w2, room) != Stop(Partial)
    ensures Utf16ToUtf8Char(m, n', w1, w2, room') == Utf16ToUtf8Char(m, n, w1, w2, room)
  {
  }

  lemma Utf16ToUtf8Blinkered(m: bv32, n: nat, w1: bv32, w2: bv32, room: nat)
    ensures n <= 1 ==> Utf16ToUtf8Char(m, n, w1, w2, room) == Utf16ToUtf8Char(m, n, w1, 0, room)
  {
  }

  lemma Utf16ToUtf8IsCodec(m: bv32)
    ensures Codec(Utf16ToUtf8(m))
  {
    var step := Utf16ToUtf8(m);
    hide Utf16ToUtf8Char;
    forall f: seq<bv16>, room: nat | f != [] ensures BoundedAt(step, f, room) {
      Utf16ToUtf8Limits(m, |f|, Unit(f, 0), Unit(f, 1), room);
    }
    forall f: seq<bv16>, g: seq<bv16>, room: nat, room': nat
      | f != [] && room <= room' && step(f, room) != Stop(Partial)
      ensures step(f + g, room') == step(f, room)
    {
      var h := f + g;
      UnitsAgree(f, g);
      UnitMissing(f);
      hide Unit;
      Utf16ToUtf8Blinkered(m, |f|, Unit(h, 0), Unit(h, 1), room);
      Utf16ToUtf8Settles(m, |f|, |h|, Unit(h, 0), Unit(h, 1), room, room');
    }
  }

  /** The first of `n` units, of which up to two are given, are the units of the character `c`. */
  predicate UnitsSpell(c: bv32, n: nat, w1: bv32, w2: bv32) {
    if c < 0x10000 then n >= 1 && w1 == c else n >= 2 && w1 == High(c) && w2 == Low(c)
  }

  lemma UnitMissing(f: seq<bv16>)
    ensures |f| <= 1 ==> Unit(f, 1) == 0
  {
  }

  lemma UnitCut(f: seq<bv16>, i: nat)
    ensures Unit(f, i) < 0x10000
    ensures i < |f| ==> Low16(Unit(f, i)) == f[i]
  {
  }

  lemma UnitsSpellPrefix(c: bv32, f: seq<bv16>)
    requires UnitsSpell(c, |f|, Unit(f, 0), Unit(f, 1))
    ensures Utf16Of(c) <= f
  {
    UnitCut(f, 0);
    UnitCut(f, 1);
    hide Low16, High, Low, Unit;
  }

  lemma UnitOfCut(w: bv32, s: seq<bv16>, i: nat)
    requires w < 0x10000 && i < |s| && s[i] == Low16(w)
    ensures Unit(s, i) == w
  {
    UnitOf(w);
    hide Low16;
  }

  lemma UnitsSpellText(c: bv32, g: seq<bv16>)
    requires IsScalar(c)
    ensures var f := Utf16Of(c) + g; Utf16Of(c) != [] && UnitsSpell(c, |f|, Unit(f, 0), Unit(f, 1))
  {
    hide Low16, High, Low, IsScalar, Unit;
    var f := Utf16Of(c) + g;
    if c < 0x10000 {
      UnitOfCut(c, f, 0);
    } else {
      PairSmall(c);
      UnitOfCut(High(c), f, 0);
      UnitOfCut(Low(c), f, 1);
    }
  }

  lemma PairSmall(c: bv32)
    requires IsScalar(c) && 0x10000 <= c
    ensures High(c) < 0x10000 && Low(c) < 0x10000
  {
  }

  lemma Utf16ToUtf8Single(m: bv32, n: nat, w1: bv32, w2: bv32, room: nat)
    requires w1 < 0x10000 && !IsHighSurrogate(w1)
    ensures Utf16ToUtf8Char(m, n, w1, w2, room).Take? <==> n >= 1 && InRange(m, w1) && |Utf8Of(w1)| <= room
    ensures Utf16ToUtf8Char(m, n, w1, w2, room).Take? ==> Utf16ToUtf8Char(m, n, w1, w2, room) == Take(1, Utf8Of(w1))
  {
  }

  lemma Utf16ToUtf8Pair(m: bv32, n: nat, w1: bv32, w2: bv32, room: nat)
    requires IsHighSurrogate(w1) && w1 < 0x10000 && w2 < 0x10000
    ensures Utf16ToUtf8Char(m, n, w1, w2, room).Take? <==>
            n >= 2 && IsLowSurrogate(w2) && w1 <= m && OfPairSum(w1, w2) <= m && 4 <= room
    ensures Utf16ToUtf8Char(m, n, w1, w2, room).Take? ==>
              Utf16ToUtf8Char(m, n, w1, w2, room) ==
              Take(2, [PairOctet1(w1), PairOctet2(w1), PairOctet3(w1, w2), Trail0(w2)])
  {
  }

  lemma PairInRange(m: bv32, w1: bv32, w2: bv32)
    requires ValidPair(w1, w2)
    ensures var c := OfPair(w1, w2);
            (w1 <= m && OfPairSum(w1, w2) <= m <==> InRange(m, c)) && 0x10000 <= c && High(c) == w1 && Low(c) == w2
  {
    PairBack(w1, w2);
    PairSum(w1, w2);
    FitsScalar(OfPair(w1, w2));
    hide OfPair, OfPairSum, High, Low, IsScalar, IsLowSurrogate;
  }

  lemma PairUtf8(w1: bv32, w2: bv32)
    requires ValidPair(w1, w2)
    ensures Utf8Of(OfPair(w1, w2)) == [PairOctet1(w1), PairOctet2(w1), PairOctet3(w1, w2), Trail0(w2)]
  {
    PairBack(w1, w2);
    PairOctets(w1, w2);
    hide OfPair, High, Low, PairOctet1, PairOctet2, PairOctet3, Trail0, Trail1, Trail2, Lead4, IsLowSurrogate;
  }

  lemma Utf16ToUtf8Reads(m: bv32, n: nat, w1: bv32, w2: bv32, room: nat) returns (c: bv32)
    requires w1 < 0x10000 && w2 < 0x10000 && Utf16ToUtf8Char(m, n, w1, w2, room).Take?
    ensures InRange(m, c) && UnitsSpell(c, n, w1, w2)
    ensures Utf16ToUtf8Char(m, n, w1, w2, room) == Take(|Utf16Of(c)|, Utf8Of(c))
  {
    hide Utf16ToUtf8Char, InRange, Utf8Of, OfPair, High, Low, PairOctet1, PairOctet2, PairOctet3, Trail0;
    hide IsHighSurrogate, IsLowSurrogate, OfPairSum;
    if IsHighSurrogate(w1) {
      Utf16ToUtf8Pair(m, n, w1, w2, room);
      HighRange(w1);
      PairInRange(m, w1, w2);
      PairUtf8(w1, w2);
      c := OfPair(w1, w2);
    } else {
      Utf16ToUtf8Single(m, n, w1, w2, room);
      c := w1;
    }
  }

  lemma HighRange(w: bv32)
    requires w < 0x10000
    ensures IsHighSurrogate(w) <==> 0xD800 <= w < 0xDC00
  {
  }

  lemma Utf16ToUtf8Accepts(m: bv32, c: bv32, n: nat, w1: bv32, w2: bv32, room: nat)
    requires InRange(m, c) && UnitsSpell(c, n, w1, w2) && |Utf8Of(c)| <= room && w2 < 0x10000
    ensures Utf16ToUtf8Char(m, n, w1, w2, room) == Take(|Utf16Of(c)|, Utf8Of(c))
  {
    hide Utf16ToUtf8Char, Utf8Of, OfPair, High, Low, PairOctet1, PairOctet2, PairOctet3, Trail0, OfPairSum,
        IsHighSurrogate, IsLowSurrogate;
    if c < 0x10000 {
      NotHigh(c);
      Utf16ToUtf8Single(m, n, w1, w2, room);
    } else {
      PairOf(c);
      HighRange(w1);
      PairInRange(m, w1, w2);
      PairUtf8(w1, w2);
      Utf16ToUtf8Pair(m, n, w1, w2, room);
    }
  }

  lemma NotHigh(c: bv32)
    requires IsScalar(c) && c < 0x10000
    ensures !IsHighSurrogate(c)
  {
  }

  lemma Utf16ToUtf8Translates(m: bv32)
    ensures Translates(Utf16ToUtf8(m), Utf16Of, Utf8Of, UpTo(m))
  {
    var step := Utf16ToUtf8(m);
    hide Utf16ToUtf8Char, IsScalar, Utf8Of, Utf16Of, Unit, UnitsSpell, Low16;
    forall f: seq<bv16>, room: nat | f != [] ensures TakesOnly(step, Utf16Of, Utf8Of, UpTo(m), f, room) {
      if step(f, room).Take? {
        UnitCut(f, 0);
        UnitCut(f, 1);
        var c := Utf16ToUtf8Reads(m, |f|, Unit(f, 0), Unit(f, 1), room);
        UnitsSpellPrefix(c, f);
        assert UpTo(m)(c);
      }
    }
    forall c, g, room: nat | UpTo(m)(c) ensures TakesAll(step, Utf16Of, Utf8Of, c, g, room) {
      var f := Utf16Of(c) + g;
      UnitsSpellText(c, g);
      UnitCut(f, 0);
      UnitCut(f, 1);
      if |Utf8Of(c)| <= room {
        Utf16ToUtf8Accepts(m, c, |f|, Unit(f, 0), Unit(f, 1), room);
      }
    }
  }

  // -- utf16be_to_ucs4, utf16le_to_ucs4

  lemma Utf16ToUcs4Limits(m: bv32, n: nat, w1: bv32, w2: bv32, room: nat)
    ensures match Utf16ToUcs4Char(m, n, w1, w2, room)
            case Take(k, o) => 2 <= k <= n && |o| == 1 <= room
            case Stop(w) => w != Ok
  {
  }

  lemma Utf16ToUcs4Settles(m: bv32, n: nat, n': nat, w1: bv32, w2: bv32, room: nat, room': nat)
    requires n <= n' && room <= room' && Utf16ToUcs4Char(m, n, w1, w2, room) != Stop(Partial)
    ensures Utf16ToUcs4Char(m, n', w1, w2, room') == Utf16ToUcs4Char(m, n, w1, w2, room)
  {
  }

  lemma Utf16ToUcs4Blinkered(m: bv32, n: nat, w1: bv32, w2: bv32, v1: bv32, v2: bv32, room: nat)
    ensures n < 4 ==> Utf16ToUcs4Char(m, n, w1, w2, room) == Utf16ToUcs4Char(m, n, w1, v2, room)
    ensures n < 2 ==> Utf16ToUcs4Char(m, n, w1, w2, room) == Utf16ToUcs4Char(m, n, v1, v2, room)
  {
  }

  lemma Utf16ToUcs4IsCodec(e: Endian, m: bv32)
    ensures Codec(Utf16ToUcs4(e, m))
  {
    var step := Utf16ToUcs4(e, m);
    hide Utf16ToUcs4Char, Join, Octet;
    forall f: seq<bv8>, room: nat | f != [] ensures BoundedAt(step, f, room) {
      Utf16ToUcs4Limits(m, |f|, Join(e, Octet(f, 0), Octet(f, 1)), Join(e, Octet(f, 2), Octet(f, 3)), room);
    }
    forall f: seq<bv8>, g: seq<bv8>, room: nat, room': nat | f != [] && room <= room' && step(f, room) != Stop(Partial)
      ensures step(f + g, room') == step(f, room)
    {
      var h := f + g;
      OctetsAgree(f, g);
      var w1, w2 := Join(e, Octet(h, 0), Octet(h, 1)), Join(e, Octet(h, 2), Octet(h, 3));
      Utf16ToUcs4Blinkered(m, |f|, w1, w2, Join(e, Octet(f, 0), Octet(f, 1)), Join(e, Octet(f, 2), Octet(f, 3)), room);
      Utf16ToUcs4Settles(m, |f|, |h|, w1, w2, room, room');
    }
  }

  lemma Utf16ToUcs4Single(m: bv32, n: nat, w1: bv32, w2: bv32, room: nat)
    requires w1 < 0x10000 && !IsHighSurrogate(w1)
    ensures Utf16ToUcs4Char(m, n, w1, w2, room).Take? <==> n >= 2 && InRange(m, w1) && 1 <= room
    ensures Utf16ToUcs4Char(m, n, w1, w2, room).Take? ==> Utf16ToUcs4Char(m, n, w1, w2, room) == Take(2, [w1])
  {
  }

  lemma Utf16ToUcs4Pair(m: bv32, n: nat, w1: bv32, w2: bv32, room: nat)
    requires IsHighSurrogate(w1) && w1 < 0x10000 && w2 < 0x10000
    ensures Utf16ToUcs4Char(m, n, w1, w2, room).Take? <==>
              n >= 4 && IsLowSurrogate(w2) && OfPair(w1, w2) <= m && 1 <= room
    ensures Utf16ToUcs4Char(m, n, w1, w2, room).Take? ==>
              Utf16ToUcs4Char(m, n, w1, w2, room) == Take(4, [OfPair(w1, w2)])
  {
  }

  /** The first of `n` octets are the octets of `c`, given the first two pairs of octets as units. */
  predicate OctetsSpell(c: bv32, n: nat, w1: bv32, w2: bv32) {
    if c < 0x10000 then n >= 2 && w1 == c else n >= 4 && w1 == High(c) && w2 == Low(c)
  }

  function Joined(e: Endian, f: seq<bv8>, i: nat): (r: bv32) { Join(e, Octet(f, i), Octet(f, i + 1)) }

  lemma JoinedCut(e: Endian, f: seq<bv8>, i: nat)
    ensures Joined(e, f, i) < 0x10000
    ensures i + 1 < |f| ==> First(e, Joined(e, f, i)) == f[i] && Second(e, Joined(e, f, i)) == f[i + 1]
  {
    SplitJoin(e, Octet(f, i), Octet(f, i + 1));
    hide Join, First, Second;
  }

  lemma OctetsSpellPrefix(e: Endian, c: bv32, f: seq<bv8>)
    requires OctetsSpell(c, |f|, Joined(e, f, 0), Joined(e, f, 2))
    ensures Utf16Octets(e, c) <= f
  {
    JoinedCut(e, f, 0);
    JoinedCut(e, f, 2);
    hide Joined, First, Second, High, Low;
  }

  lemma JoinedAt(e: Endian, w: bv32, s: seq<bv8>, i: nat)
    requires w < 0x10000 && i + 1 < |s| && s[i] == First(e, w) && s[i + 1] == Second(e, w)
    ensures Joined(e, s, i) == w
  {
    JoinSplit(e, w);
    hide Join, First, Second;
  }

  lemma OctetsSpellText(e: Endian, c: bv32, g: seq<bv8>)
    requires IsScalar(c)
    ensures var f := Utf16Octets(e, c) + g;
            Utf16Octets(e, c) != [] && OctetsSpell(c, |f|, Joined(e, f, 0), Joined(e, f, 2))
  {
    hide Joined, First, Second, High, Low, IsScalar;
    var f := Utf16Octets(e, c) + g;
    if c < 0x10000 {
      JoinedAt(e, c, f, 0);
    } else {
      PairSmall(c);
      JoinedAt(e, High(c), f, 0);
      JoinedAt(e, Low(c), f, 2);
    }
  }

  lemma Utf16ToUcs4Reads(e: Endian, m: bv32, n: nat, w1: bv32, w2: bv32, room: nat) returns (c: bv32)
    requires w1 < 0x10000 && w2 < 0x10000 && Utf16ToUcs4Char(m, n, w1, w2, room).Take?
    ensures InRange(m, c) && OctetsSpell(c, n, w1, w2)
    ensures Utf16ToUcs4Char(m, n, w1, w2, room) == Take(|Utf16Octets(e, c)|, [c])
  {
    hide Utf16ToUcs4Char, OfPair, High, Low, IsHighSurrogate, IsLowSurrogate, First, Second, IsScalar;
    if IsHighSurrogate(w1) {
      Utf16ToUcs4Pair(m, n, w1, w2, room);
      HighRange(w1);
      PairBack(w1, w2);
      FitsScalar(OfPair(w1, w2));
      c := OfPair(w1, w2);
    } else {
      Utf16ToUcs4Single(m, n, w1, w2, room);
      c := w1;
    }
  }

  lemma Utf16ToUcs4Accepts(e: Endian, m: bv32, c: bv32, n: nat, w1: bv32, w2: bv32, room: nat)
    requires InRange(m, c) && OctetsSpell(c, n, w1, w2) && 1 <= room && w2 < 0x10000
    ensures Utf16ToUcs4Char(m, n, w1, w2, room) == Take(|Utf16Octets(e, c)|, [c])
  {
    hide Utf16ToUcs4Char, OfPair, High, Low, IsHighSurrogate, IsLowSurrogate, First, Second;
    if c < 0x10000 {
      NotHigh(c);
      Utf16ToUcs4Single(m, n, w1, w2, room);
    } else {
      PairOf(c);
      HighRange(w1);
      Utf16ToUcs4Pair(m, n, w1, w2, room);
    }
  }

  lemma Utf16ToUcs4Translates(e: Endian, m: bv32)
    ensures Translates(Utf16ToUcs4(e, m), Utf16OctetsOf(e), Ucs4Of, UpTo(m))
  {
    var step := Utf16ToUcs4(e, m);
    hide Utf16ToUcs4Char, IsScalar, Utf16Octets, Join, Octet, OctetsSpell;
    forall f: seq<bv8>, room: nat | f != [] ensures TakesOnly(step, Utf16OctetsOf(e), Ucs4Of, UpTo(m), f, room) {
      var w1, w2 := Joined(e, f, 0), Joined(e, f, 2);
      if step(f, room).Take? {
        JoinedCut(e, f, 0);
        JoinedCut(e, f, 2);
        var c := Utf16ToUcs4Reads(e, m, |f|, w1, w2, room);
        OctetsSpellPrefix(e, c, f);
        assert UpTo(m)(c);
      }
    }
    forall c, g, room: nat | UpTo(m)(c) ensures TakesAll(step, Utf16OctetsOf(e), Ucs4Of, c, g, room) {
      var f := Utf16Octets(e, c) + g;
      var w1, w2 := Joined(e, f, 0), Joined(e, f, 2);
      OctetsSpellText(e, c, g);
      JoinedCut(e, f, 2);
      if 1 <= room {
        Utf16ToUcs4Accepts(e, m, c, |f|, w1, w2, room);
      }
    }
  }

  // -- utf16be_to_ucs2, utf16le_to_ucs2

  lemma Utf16ToUcs2Limits(m: bv32, n: nat, w: bv32, room: nat)
    ensures match Utf16ToUcs2Char(m, n, w, room)
            case Take(k, o) => 2 == k <= n && |o| == 1 <= room
            case Stop(w) => w != Ok
  {
  }

  lemma Utf16ToUcs2Settles(m: bv32, n: nat, n': nat, w: bv32, room: nat, room': nat)
    requires n <= n' && room <= room' && Utf16ToUcs2Char(m, n, w, room) != Stop(Partial)
    ensures 2 <= n && Utf16ToUcs2Char(m, n', w, room') == Utf16ToUcs2Char(m, n, w, room)
  {
  }

  lemma Utf16ToUcs2IsCodec(e: Endian, m: bv32)
    ensures Codec(Utf16ToUcs2(e, m))
  {
    var step := Utf16ToUcs2(e, m);
    hide Utf16ToUcs2Char, Join, Octet;
    forall f: seq<bv8>, room: nat | f != [] ensures BoundedAt(step, f, room) {
      Utf16ToUcs2Limits(m, |f|, Join(e, Octet(f, 0), Octet(f, 1)), room);
    }
    forall f: seq<bv8>, g: seq<bv8>, room: nat, room': nat | f != [] && room <= room' && step(f, room) != Stop(Partial)
      ensures step(f + g, room') == step(f, room)
    {
      var h := f + g;
      OctetsAgree(f, g);
      Utf16ToUcs2Settles(m, |f|, |h|, Join(e, Octet(f, 0), Octet(f, 1)), room, room');
    }
  }

  lemma Utf16ToUcs2Exact(m: bv32, n: nat, w: bv32, room: nat)
    requires w < 0x10000
    ensures Utf16ToUcs2Char(m, n, w, room).Take? <==> n >= 2 && InNarrowRange(m, w) && 1 <= room
    ensures Utf16ToUcs2Char(m, n, w, room).Take? ==> Utf16ToUcs2Char(m, n, w, room) == Take(2, Ucs2Of(w))
  {
  }

  lemma Utf16ToUcs2Translates(e: Endian, m: bv32)
    ensures Translates(Utf16ToUcs2(e, m), Utf16OctetsOf(e), Ucs2Of, NarrowUpTo(m))
  {
    var step := Utf16ToUcs2(e, m);
    hide Utf16ToUcs2Char, IsScalar, Join, Octet, First, Second, Low16, High, Low;
    forall f: seq<bv8>, room: nat | f != [] ensures TakesOnly(step, Utf16OctetsOf(e), Ucs2Of, NarrowUpTo(m), f, room) {
      var w := Joined(e, f, 0);
      JoinedCut(e, f, 0);
      Utf16ToUcs2Exact(m, |f|, w, room);
      if step(f, room).Take? {
        OctetsSpellPrefix(e, w, f);
        assert NarrowUpTo(m)(w);
      }
    }
    forall c, g, room: nat | NarrowUpTo(m)(c) ensures TakesAll(step, Utf16OctetsOf(e), Ucs2Of, c, g, room) {
      var f := Utf16Octets(e, c) + g;
      OctetsSpellText(e, c, g);
      Utf16ToUcs2Exact(m, |f|, Joined(e, f, 0), room);
    }
  }
}
