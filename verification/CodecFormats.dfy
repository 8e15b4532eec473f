/**
 What each format of libcxx/src/locale.cpp writes for one Unicode character, and the
 laws of the converters that are proved once for a whole family: the decoders from
 UTF-8, and the encoders that read one unit at a time.
 */
module CodecFormats {
  import opened CodecMachine
  import opened CodecBits
  import opened CodecSteps

  /** The Unicode scalar values. */
  predicate IsScalar(c: bv32) { c <= 0x10FFFF && !IsSurrogate(c) }

  /** The characters a converter with Maxcode `m` is for, and those among them that are one 16-bit unit. */
  predicate InRange(m: bv32, c: bv32) { IsScalar(c) && c <= m }

  predicate InNarrowRange(m: bv32, c: bv32) { IsScalar(c) && c <= m && c < 0x10000 }

  /** utf8_to_utf16 also holds the first octet of a character against Maxcode. */
  predicate InLeadRange(m: bv32, c: bv32) { InRange(m, c) && Utf8Of(c)[0] as bv32 <= m }

  function UpTo(m: bv32): (r: bv32 -> bool) { (c: bv32) => InRange(m, c) }

  function NarrowUpTo(m: bv32): (r: bv32 -> bool) { (c: bv32) => InNarrowRange(m, c) }

  function LeadUpTo(m: bv32): (r: bv32 -> bool) { (c: bv32) => InLeadRange(m, c) }

  function Ucs4Of(c: bv32): (r: seq<bv32>) { [c] }

  function Ucs2Of(c: bv32): (r: seq<bv16>) { [Low16(c)] }

  function Utf8Of(c: bv32): (r: seq<bv8>) {
    if c < 0x80 then [Low8(c)]
    else if c < 0x800 then [Lead2(c), Trail0(c)]
    else if c < 0x10000 then [Lead3(c), Trail1(c), Trail0(c)]
    else [Lead4(c), Trail2(c), Trail1(c), Trail0(c)]
  }

  function Utf16Of(c: bv32): (r: seq<bv16>) {
    if c < 0x10000 then [Low16(c)] else [Low16(High(c)), Low16(Low(c))]
  }

  /** UTF-16 as octets, in the order of the source's be and le converters. */
  function Utf16OctetsOf(e: Endian): (r: bv32 -> seq<bv8>) { (c: bv32) => Utf16Octets(e, c) }

  function Utf16Octets(e: Endian, c: bv32): (r: seq<bv8>) {
    if c < 0x10000 then [First(e, c), Second(e, c)]
    else [First(e, High(c)), Second(e, High(c)), First(e, Low(c)), Second(e, Low(c))]
  }

  // -- reading UTF-8

  /** The first of `n` octets, of which up to four are given, spell the character `c`. */
  predicate Spells(c: bv32, n: nat, c1: bv8, c2: bv8, c3: bv8, c4: bv8) {
    if c < 0x80 then n >= 1 && c1 == Low8(c)
    else if c < 0x800 then n >= 2 && c1 == Lead2(c) && c2 == Trail0(c)
    else if c < 0x10000 then n >= 3 && c1 == Lead3(c) && c2 == Trail1(c) && c3 == Trail0(c)
    else n >= 4 && c1 == Lead4(c) && c2 == Trail2(c) && c3 == Trail1(c) && c4 == Trail0(c)
  }

  lemma SpellsPrefix(c: bv32, f: seq<bv8>)
    requires Spells(c, |f|, Octet(f, 0), Octet(f, 1), Octet(f, 2), Octet(f, 3))
    ensures Utf8Of(c) <= f
  {
    hide Low8, Lead2, Lead3, Lead4, Trail0, Trail1, Trail2;
  }

  lemma SpellsText(c: bv32, g: seq<bv8>)
    ensures var f := Utf8Of(c) + g;
            Utf8Of(c) != [] && Spells(c, |f|, Octet(f, 0), Octet(f, 1), Octet(f, 2), Octet(f, 3))
  {
    hide Low8, Lead2, Lead3, Lead4, Trail0, Trail1, Trail2;
  }

  lemma FitsScalar(c: bv32)
    ensures Fits1(c) || Fits2(c) || Fits3(c) || Fits4(c) <==> IsScalar(c)
  {
  }

  predicate ScalarSpelled(c: bv32, n: nat, c1: bv8, c2: bv8, c3: bv8, c4: bv8) {
    IsScalar(c) && Spells(c, n, c1, c2, c3, c4)
  }

  lemma SpellsLead(c: bv32, n: nat, c1: bv8, c2: bv8, c3: bv8, c4: bv8)
    requires Spells(c, n, c1, c2, c3, c4)
    ensures Utf8Of(c)[0] == c1
  {
    hide Low8, Lead2, Lead3, Lead4, Trail0, Trail1, Trail2;
  }

  // Octets a decoder accepts spell the character it decodes them to.

  lemma Spelled1(n: nat, c1: bv8, c2: bv8, c3: bv8, c4: bv8)
    requires n >= 1 && c1 < 0x80
    ensures var c := c1 as bv32; ScalarSpelled(c, n, c1, c2, c3, c4) && |Utf8Of(c)| == 1
  {
    Octet1Back(c1);
    FitsScalar(c1 as bv32);
    hide Low8, Lead2, Lead3, Lead4, Trail0, Trail1, Trail2, IsScalar;
  }

  lemma Spelled2(n: nat, c1: bv8, c2: bv8, c3: bv8, c4: bv8)
    requires n >= 2 && Valid2(c1, c2)
    ensures var c := Decode2(c1, c2); ScalarSpelled(c, n, c1, c2, c3, c4) && |Utf8Of(c)| == 2 && c < 0x800
  {
    Decoded2(c1, c2);
    FitsScalar(Decode2(c1, c2));
    hide Low8, Lead2, Lead3, Lead4, Trail0, Trail1, Trail2, IsScalar, Decode2, Valid2;
  }

  lemma Spelled3(n: nat, c1: bv8, c2: bv8, c3: bv8, c4: bv8)
    requires n >= 3 && Valid3(c1, c2, c3)
    ensures var c := Decode3(c1, c2, c3); ScalarSpelled(c, n, c1, c2, c3, c4) && |Utf8Of(c)| == 3 && c < 0x10000
  {
    Decoded3(c1, c2, c3);
    FitsScalar(Decode3(c1, c2, c3));
    hide Low8, Lead2, Lead3, Lead4, Trail0, Trail1, Trail2, IsScalar, Decode3, Valid3;
  }

  lemma Spelled4(n: nat, c1: bv8, c2: bv8, c3: bv8, c4: bv8)
    requires n >= 4 && Valid4(c1, c2, c3, c4)
    ensures var c := Decode4(c1, c2, c3, c4); ScalarSpelled(c, n, c1, c2, c3, c4) && |Utf8Of(c)| == 4 && 0x10000 <= c
  {
    Decoded4(c1, c2, c3, c4);
    FitsScalar(Decode4(c1, c2, c3, c4));
    hide Low8, Lead2, Lead3, Lead4, Trail0, Trail1, Trail2, IsScalar, Decode4, Valid4;
  }

  /** Octets that spell a scalar value are acceptable, and decode to it. */
  lemma Spelling(c: bv32, n: nat, c1: bv8, c2: bv8, c3: bv8, c4: bv8)
    requires ScalarSpelled(c, n, c1, c2, c3, c4)
    ensures c < 0x80 ==> n >= 1 && c1 < 0x80 && c1 as bv32 == c && |Utf8Of(c)| == 1
    ensures 0x80 <= c < 0x800 ==>
              n >= 2 && Valid2(c1, c2) && 0x80 <= c1 < 0xE0 && Decode2(c1, c2) == c && |Utf8Of(c)| == 2
    ensures 0x800 <= c < 0x10000 ==>
              n >= 3 && Valid3(c1, c2, c3) && 0xE0 <= c1 < 0xF0 && Decode3(c1, c2, c3) == c && |Utf8Of(c)| == 3
    ensures 0x10000 <= c ==>
              n >= 4 && Valid4(c1, c2, c3, c4) && 0xF0 <= c1 && Decode4(c1, c2, c3, c4) == c && |Utf8Of(c)| == 4
  {
    if c < 0x80 {
      Octet1(c);
    } else if c < 0x800 {
      Encoded2(c);
    } else if c < 0x10000 {
      Encoded3(c);
    } else {
      Encoded4(c);
    }
    hide Low8, Lead2, Lead3, Lead4, Trail0, Trail1, Trail2, Decode2, Decode3, Decode4, IsTrail, IsSecondOf3,
        IsSecondOf4;
  }

  // -- the decoders from UTF-8

  type OctetChar<!B> = (nat, bv8, bv8, bv8, bv8, nat) -> Step<B>

  ghost predicate ReadsOctets<B(!new)>(step: Stepper<bv8, B>, ch: OctetChar<B>) {
    forall f: seq<bv8>, room: nat {:trigger step(f, room)} ::
      step(f, room) == ch(|f|, Octet(f, 0), Octet(f, 1), Octet(f, 2), Octet(f, 3), room)
  }

  ghost predicate Measured<B(!new)>(ch: OctetChar<B>) {
    forall n: nat, c1: bv8, c2: bv8, c3: bv8, c4: bv8, room: nat {:trigger ch(n, c1, c2, c3, c4, room)} ::
      match ch(n, c1, c2, c3, c4, room)
      case Take(k, o) => 1 <= k <= n && 1 <= |o| <= room
      case Stop(w) => w != Ok
  }

  /** More octets or room do not matter once a step is not waiting for them. */
  ghost predicate Settled<B(!new)>(ch: OctetChar<B>) {
    forall n: nat, n': nat, c1: bv8, c2: bv8, c3: bv8, c4: bv8, room: nat, room': nat
        {:trigger ch(n, c1, c2, c3, c4, room), ch(n', c1, c2, c3, c4, room')} ::
      n <= n' && room <= room' && ch(n, c1, c2, c3, c4, room) != Stop(Partial) ==>
      ch(n', c1, c2, c3, c4, room') == ch(n, c1, c2, c3, c4, room)
  }

  /** A step does not look beyond the octets it is told are there. */
  ghost predicate Blinkered<B(!new)>(ch: OctetChar<B>) {
    && (forall n: nat, c1: bv8, c2: bv8, c3: bv8, c4: bv8, room: nat {:trigger ch(n, c1, c2, c3, c4, room)} ::
          n <= 3 ==> ch(n, c1, c2, c3, c4, room) == ch(n, c1, c2, c3, 0, room))
    && (forall n: nat, c1: bv8, c2: bv8, c3: bv8, room: nat {:trigger ch(n, c1, c2, c3, 0, room)} ::
          n <= 2 ==> ch(n, c1, c2, c3, 0, room) == ch(n, c1, c2, 0, 0, room))
    && (forall n: nat, c1: bv8, c2: bv8, room: nat {:trigger ch(n, c1, c2, 0, 0, room)} ::
          n <= 1 ==> ch(n, c1, c2, 0, 0, room) == ch(n, c1, 0, 0, 0, room))
  }

  lemma OctetsAgree(f: seq<bv8>, g: seq<bv8>)
    ensures 0 < |f| ==> Octet(f + g, 0) == Octet(f, 0)
    ensures 1 < |f| ==> Octet(f + g, 1) == Octet(f, 1)
    ensures 2 < |f| ==> Octet(f + g, 2) == Octet(f, 2)
    ensures 3 < |f| ==> Octet(f + g, 3) == Octet(f, 3)
  {
  }

  lemma OctetsMissing(f: seq<bv8>)
    ensures |f| <= 1 ==> Octet(f, 1) == 0
    ensures |f| <= 2 ==> Octet(f, 2) == 0
    ensures |f| <= 3 ==> Octet(f, 3) == 0
  {
  }

  lemma OctetStepsGrow<B(!new)>(step: Stepper<bv8, B>, ch: OctetChar<B>, f: seq<bv8>, g: seq<bv8>, room: nat,
      room': nat)
    requires ReadsOctets(step, ch) && Settled(ch) && Blinkered(ch)
    requires f != [] && room <= room' && step(f, room) != Stop(Partial)
    ensures step(f + g, room') == step(f, room)
  {
    hide Octet;
    OctetsAgree(f, g);
    OctetsMissing(f);
    var h := f + g;
    var s := ch(|f|, Octet(h, 0), Octet(h, 1), Octet(h, 2), Octet(h, 3), room);
    assert step(f, room) == s;
    assert step(h, room') == ch(|h|, Octet(h, 0), Octet(h, 1), Octet(h, 2), Octet(h, 3), room');
  }

  lemma OctetStepsAreCodec<B(!new)>(step: Stepper<bv8, B>, ch: OctetChar<B>)
    requires ReadsOctets(step, ch) && Measured(ch) && Settled(ch) && Blinkered(ch)
    ensures Codec(step)
  {
    forall f: seq<bv8>, g: seq<bv8>, room: nat, room': nat | f != [] && room <= room' && step(f, room) != Stop(Partial)
      ensures step(f + g, room') == step(f, room)
    {
      OctetStepsGrow(step, ch, f, g, room, room');
    }
    hide Settled, Blinkered;
    forall f: seq<bv8>, room: nat | f != [] ensures BoundedAt(step, f, room) {
    }
  }

  ghost predicate ReadsAt<B>(ch: OctetChar<B>, dst: bv32 -> seq<B>, domain: bv32 -> bool,
                             n: nat, c1: bv8, c2: bv8, c3: bv8, c4: bv8, room: nat) {
    ch(n, c1, c2, c3, c4, room).Take? ==>
      exists c :: domain(c) && Spells(c, n, c1, c2, c3, c4) && Copies(ch(n, c1, c2, c3, c4, room), Utf8Of(c), dst(c))
  }

  ghost predicate AcceptsAt<B>(ch: OctetChar<B>, dst: bv32 -> seq<B>, c: bv32,
                               n: nat, c1: bv8, c2: bv8, c3: bv8, c4: bv8, room: nat) {
    Spells(c, n, c1, c2, c3, c4) && |dst(c)| <= room ==> Copies(ch(n, c1, c2, c3, c4, room), Utf8Of(c), dst(c))
  }

  /**
   What a decoder makes of an octet sequence, by its first octet: it takes a sequence
   that is all there, well formed, of a character of the domain, when there is room.
   */
  ghost predicate DecodesAt<B>(ch: OctetChar<B>, dst: bv32 -> seq<B>, domain: bv32 -> bool,
                               n: nat, c1: bv8, c2: bv8, c3: bv8, c4: bv8, room: nat) {
    var s := ch(n, c1, c2, c3, c4, room);
    && (c1 < 0x80 ==> Fate(s, 1, n >= 1, c1 as bv32, dst, domain, room))
    && (0x80 <= c1 < 0xE0 ==> Fate(s, 2, n >= 2 && Valid2(c1, c2), Decode2(c1, c2), dst, domain, room))
    && (0xE0 <= c1 < 0xF0 ==> Fate(s, 3, n >= 3 && Valid3(c1, c2, c3), Decode3(c1, c2, c3), dst, domain, room))
    && (0xF0 <= c1 ==> Fate(s, 4, n >= 4 && Valid4(c1, c2, c3, c4), Decode4(c1, c2, c3, c4), dst, domain, room))
  }

  ghost predicate Fate<B>(s: Step<B>, k: nat, wellFormed: bool, c: bv32, dst: bv32 -> seq<B>, domain: bv32 -> bool,
      room: nat) {
    && (s.Take? <==> wellFormed && domain(c) && |dst(c)| <= room)
    && (s.Take? ==> s == Take(k, dst(c)))
  }

  lemma DecodesReads<B>(ch: OctetChar<B>, dst: bv32 -> seq<B>, domain: bv32 -> bool,
                        n: nat, c1: bv8, c2: bv8, c3: bv8, c4: bv8, room: nat)
    requires DecodesAt(ch, dst, domain, n, c1, c2, c3, c4, room)
    ensures ReadsAt(ch, dst, domain, n, c1, c2, c3, c4, room)
  {
    hide Decode2, Decode3, Decode4, Valid2, Valid3, Valid4, Spells, Utf8Of, IsScalar;
    var s := ch(n, c1, c2, c3, c4, room);
    if s.Take? {
      if c1 < 0x80 {
        Spelled1(n, c1, c2, c3, c4);
        assert Copies(s, Utf8Of(c1 as bv32), dst(c1 as bv32));
      } else if c1 < 0xE0 {
        Spelled2(n, c1, c2, c3, c4);
        assert Copies(s, Utf8Of(Decode2(c1, c2)), dst(Decode2(c1, c2)));
      } else if c1 < 0xF0 {
        Spelled3(n, c1, c2, c3, c4);
        assert Copies(s, Utf8Of(Decode3(c1, c2, c3)), dst(Decode3(c1, c2, c3)));
      } else {
        Spelled4(n, c1, c2, c3, c4);
        assert Copies(s, Utf8Of(Decode4(c1, c2, c3, c4)), dst(Decode4(c1, c2, c3, c4)));
      }
    }
  }

  lemma DecodesAccepts<B>(ch: OctetChar<B>, dst: bv32 -> seq<B>, domain: bv32 -> bool,
                          c: bv32, n: nat, c1: bv8, c2: bv8, c3: bv8, c4: bv8, room: nat)
    requires DecodesAt(ch, dst, domain, n, c1, c2, c3, c4, room)
    requires domain(c) && IsScalar(c)
    ensures AcceptsAt(ch, dst, c, n, c1, c2, c3, c4, room)
  {
    hide Decode2, Decode3, Decode4, Valid2, Valid3, Valid4, Spells, Utf8Of, IsScalar;
    if Spells(c, n, c1, c2, c3, c4) {
      Spelling(c, n, c1, c2, c3, c4);
      if c < 0x80 { } else if c < 0x800 { } else if c < 0x10000 { } else { }
    }
  }

  lemma OctetStepsTranslate<B(!new)>(step: Stepper<bv8, B>, ch: OctetChar<B>, dst: bv32 -> seq<B>, domain: bv32 -> bool)
    requires ReadsOctets(step, ch)
    requires forall n: nat, c1: bv8, c2: bv8, c3: bv8, c4: bv8, room: nat {:trigger ch(n, c1, c2, c3, c4, room)} ::
               DecodesAt(ch, dst, domain, n, c1, c2, c3, c4, room)
    requires forall c {:trigger domain(c)} :: domain(c) ==> IsScalar(c)
    ensures Translates(step, Utf8Of, dst, domain)
  {
    hide Octet, Spells, DecodesAt, Utf8Of, IsScalar;
    forall f: seq<bv8>, room: nat | f != [] ensures TakesOnly(step, Utf8Of, dst, domain, f, room) {
      var c1, c2, c3, c4 := Octet(f, 0), Octet(f, 1), Octet(f, 2), Octet(f, 3);
      var s := ch(|f|, c1, c2, c3, c4, room);
      DecodesReads(ch, dst, domain, |f|, c1, c2, c3, c4, room);
      if s.Take? {
        var c :| domain(c) && Spells(c, |f|, c1, c2, c3, c4) && Copies(s, Utf8Of(c), dst(c));
        SpellsPrefix(c, f);
      }
    }
    forall c, g, room: nat | domain(c) ensures TakesAll(step, Utf8Of, dst, c, g, room) {
      var f := Utf8Of(c) + g;
      SpellsText(c, g);
      var s := ch(|f|, Octet(f, 0), Octet(f, 1), Octet(f, 2), Octet(f, 3), room);
      DecodesAccepts(ch, dst, domain, c, |f|, Octet(f, 0), Octet(f, 1), Octet(f, 2), Octet(f, 3), room);
    }
  }

  // -- the encoders, which read one unit at a time

  type UnitChar<!B> = (bv32, nat) -> Step<B>

  ghost predicate UnitLaws<B(!new)>(ch: UnitChar<B>) {
    && (forall c: bv32, room: nat {:trigger ch(c, room)} :: UnitFits(ch, c, room))
    && (forall c: bv32, room: nat, room': nat {:trigger ch(c, room), ch(c, room')} ::
          room <= room' ==> UnitSettled(ch, c, room, room'))
  }

  ghost predicate UnitSettled<B>(ch: UnitChar<B>, c: bv32, room: nat, room': nat) {
    ch(c, room) != Stop(Partial) ==> ch(c, room') == ch(c, room)
  }

  ghost predicate UnitFits<B>(ch: UnitChar<B>, c: bv32, room: nat) {
    match ch(c, room)
    case Take(k, o) => k == 1 && 1 <= |o| <= room
    case Stop(w) => w != Ok
  }

  ghost predicate WritesAs<B>(ch: UnitChar<B>, dst: bv32 -> seq<B>, domain: bv32 -> bool, c: bv32, room: nat) {
    && (ch(c, room).Take? <==> domain(c) && |dst(c)| <= room)
    && (ch(c, room).Take? ==> ch(c, room) == Take(1, dst(c)))
  }

  lemma Ucs4StepsAreCodec<B(!new)>(step: Stepper<bv32, B>, ch: UnitChar<B>)
    requires UnitLaws(ch)
    requires forall f: seq<bv32>, room: nat {:trigger step(f, room)} :: f != [] ==> step(f, room) == ch(f[0], room)
    ensures Codec(step)
  {
    forall f: seq<bv32>, g: seq<bv32>, room: nat, room': nat
      | f != [] && room <= room' && step(f, room) != Stop(Partial)
      ensures step(f + g, room') == step(f, room)
    {
      var c := f[0];
      assert (f + g)[0] == c;
      assert UnitSettled(ch, c, room, room');
    }
    forall f: seq<bv32>, room: nat | f != [] ensures BoundedAt(step, f, room) {
      var c := f[0];
      assert UnitFits(ch, c, room);
    }
  }

  lemma Ucs4StepsTranslate<B(!new)>(step: Stepper<bv32, B>, ch: UnitChar<B>, dst: bv32 -> seq<B>, domain: bv32 -> bool)
    requires forall f: seq<bv32>, room: nat {:trigger step(f, room)} :: f != [] ==> step(f, room) == ch(f[0], room)
    requires forall c: bv32, room: nat {:trigger ch(c, room)} :: WritesAs(ch, dst, domain, c, room)
    ensures Translates(step, Ucs4Of, dst, domain)
  {
    forall f: seq<bv32>, room: nat | f != [] ensures TakesOnly(step, Ucs4Of, dst, domain, f, room) {
      assert WritesAs(ch, dst, domain, f[0], room);
      assert Ucs4Of(f[0]) <= f;
    }
    forall c, g, room: nat | domain(c) ensures TakesAll(step, Ucs4Of, dst, c, g, room) {
      assert WritesAs(ch, dst, domain, c, room);
    }
  }

  lemma Ucs2StepsAreCodec<B(!new)>(step: Stepper<bv16, B>, ch: UnitChar<B>)
    requires UnitLaws(ch)
    requires forall f: seq<bv16>, room: nat {:trigger step(f, room)} :: f != [] ==>
              step(f, room) == ch(Unit(f, 0), room)
    ensures Codec(step)
  {
    forall f: seq<bv16>, g: seq<bv16>, room: nat, room': nat
      | f != [] && room <= room' && step(f, room) != Stop(Partial)
      ensures step(f + g, room') == step(f, room)
    {
      UnitsAgree(f, g);
      hide Unit;
      var c := Unit(f, 0);
      assert UnitSettled(ch, c, room, room');
    }
    hide Unit;
    forall f: seq<bv16>, room: nat | f != [] ensures BoundedAt(step, f, room) {
      var c := Unit(f, 0);
      assert UnitFits(ch, c, room);
    }
  }

  lemma UnitsAgree(f: seq<bv16>, g: seq<bv16>)
    ensures 0 < |f| ==> Unit(f + g, 0) == Unit(f, 0)
    ensures 1 < |f| ==> Unit(f + g, 1) == Unit(f, 1)
  {
  }

  lemma Ucs2Prefix(f: seq<bv16>)
    requires f != []
    ensures Ucs2Of(Unit(f, 0)) <= f && Unit(f, 0) < 0x10000 && |Ucs2Of(Unit(f, 0))| == 1
  {
    UnitBack(f[0]);
    hide Low16;
  }

  lemma Ucs2Text(c: bv32, g: seq<bv16>)
    requires c < 0x10000
    ensures Unit(Ucs2Of(c) + g, 0) == c && |Ucs2Of(c)| == 1
  {
    UnitOf(c);
    hide Low16;
  }

  lemma Ucs2StepsTranslate<B(!new)>(step: Stepper<bv16, B>, ch: UnitChar<B>, dst: bv32 -> seq<B>, domain: bv32 -> bool)
    requires forall f: seq<bv16>, room: nat {:trigger step(f, room)} :: f != [] ==>
              step(f, room) == ch(Unit(f, 0), room)
    requires forall c: bv32, room: nat {:trigger ch(c, room)} :: c < 0x10000 ==> WritesAs(ch, dst, domain, c, room)
    requires forall c {:trigger domain(c)} :: domain(c) ==> c < 0x10000
    ensures Translates(step, Ucs2Of, dst, domain)
  {
    hide Unit, Ucs2Of;
    forall f: seq<bv16>, room: nat | f != [] ensures TakesOnly(step, Ucs2Of, dst, domain, f, room) {
      Ucs2Prefix(f);
      assert WritesAs(ch, dst, domain, Unit(f, 0), room);
    }
    forall c, g, room: nat | domain(c) ensures TakesAll(step, Ucs2Of, dst, c, g, room) {
      Ucs2Text(c, g);
      assert WritesAs(ch, dst, domain, c, room);
    }
  }
}
