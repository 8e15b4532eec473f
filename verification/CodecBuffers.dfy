/**
 The conversion loops of libcxx/src/locale.cpp over an output buffer, with the codecvt
 modes generate_header and consume_header.  The loops are the same for every converter
 of a direction, so they are written once, over the converter's step.
 */
module CodecBuffers {
  import opened CodecMachine
  import opened CodecBits
  import opened CodecSteps
  import opened CodecFormats
  import opened CodecLaws

  const UTF8_HEADER: seq<bv8> := [0xEF, 0xBB, 0xBF]

  function Utf16Header(e: Endian): (r: seq<bv8>) { if e == Big then [0xFE, 0xFF] else [0xFF, 0xFE] }

  /** With generate_header the output starts with the header, or nothing at all is done. */
  ghost function Encoded<A(!new)>(step: Stepper<A, bv8>, header: seq<bv8>, generate: bool, frm: seq<A>,
      room: nat): (r: Outcome<bv8>)
    requires Bounded(step)
  {
    if !generate then Convert(step, frm, room)
    else if room < |header| then Outcome(Partial, 0, [])
    else After(0, header, Convert(step, frm, room - |header|))
  }

  function HeaderSize(header: seq<bv8>, consume: bool, frm: seq<bv8>): (h: nat)
    ensures h <= |frm|
  {
    if consume && |header| <= |frm| && frm[..|header|] == header then |header| else 0
  }

  /** With consume_header a header at the start of the input is skipped. */
  ghost function Decoded<B(!new)>(step: Stepper<bv8, B>, header: seq<bv8>, consume: bool, frm: seq<bv8>,
      room: nat): (r: Outcome<B>)
    requires Bounded(step)
  {
    var h := HeaderSize(header, consume, frm);
    After(h, [], Convert(step, frm[h..], room))
  }

  /** The output written so far, continued by the rest of the conversion. */
  ghost predicate Continues<A(!new), B(!new)>(whole: Outcome<B>, step: Stepper<A, B>, frm: seq<A>, i: nat,
      done: seq<B>, room: nat)
    requires Bounded(step)
  {
    i <= |frm| && |done| <= room && whole == After(i, done, Convert(step, frm[i..], room - |done|))
  }

  lemma ContinuesTake<A(!new), B(!new)>(whole: Outcome<B>, step: Stepper<A, B>, frm: seq<A>, i: nat, done: seq<B>,
      room: nat)
    requires Bounded(step) && Continues(whole, step, frm, i, done, room) && i < |frm|
    requires step(frm[i..], room - |done|).Take?
    ensures var Take(n, o) := step(frm[i..], room - |done|);
            && n >= 1 && |o| >= 1 && i + n <= |frm| && |done| + |o| <= room
            && Continues(whole, step, frm, i + n, done + o, room)
  {
  }

  lemma ContinuesStop<A(!new), B(!new)>(whole: Outcome<B>, step: Stepper<A, B>, frm: seq<A>, i: nat, done: seq<B>,
      room: nat)
    requires Bounded(step) && Continues(whole, step, frm, i, done, room)
    ensures i == |frm| ==> whole == Outcome(Ok, i, done)
    ensures i < |frm| && step(frm[i..], room - |done|).Stop? ==>
              whole == Outcome(step(frm[i..], room - |done|).why, i, done)
  {
    assert done + [] == done;
  }

  /** Writing one character at to_nxt. */
  method Write<B>(to: array<B>, at: nat, o: seq<B>)
    requires at + |o| <= to.Length
    modifies to
    ensures to[..at + |o|] == old(to[..at]) + o && to[at + |o|..] == old(to[at + |o|..])
  {
    var k := 0;
    while k < |o|
      invariant 0 <= k <= |o|
      invariant forall j :: 0 <= j < at || at + k <= j < to.Length ==> to[j] == old(to[j])
      invariant forall j :: 0 <= j < k ==> to[at + j] == o[j]
    {
      to[at + k] := o[k];
      k := k + 1;
    }
  }

  lemma SameTail<B>(s: seq<B>, t: seq<B>, k: nat, l: nat)
    requires k <= l <= |s| && |s| == |t| && s[k..] == t[k..]
    ensures s[l..] == t[l..]
  {
    DropDrop(s, k, l - k);
    DropDrop(t, k, l - k);
  }

  /** One round of the loop, at position `i` of the input and `at` of the output. */
  method Round<A(!new), B(!new)>(step: Stepper<A, B>, frm: seq<A>, i: nat, to: array<B>, at: nat,
      ghost whole: Outcome<B>)
    returns (stop: bool, r: Result, frmNxt: nat, toNxt: nat)
    requires Bounded(step) && i < |frm| && at <= to.Length
    requires Continues(whole, step, frm, i, to[..at], to.Length)
    modifies to
    ensures at <= toNxt <= to.Length && i <= frmNxt <= |frm|
    ensures to[toNxt..] == old(to[toNxt..])
    ensures stop ==> whole == Outcome(r, frmNxt, to[..toNxt])
    ensures !stop ==> i < frmNxt && Continues(whole, step, frm, frmNxt, to[..toNxt], to.Length)
  {
    hide Continues, Convert, Bounded;
    ghost var done := to[..at];
    match step(frm[i..], to.Length - at)
    case Stop(w) =>
      ContinuesStop(whole, step, frm, i, done, to.Length);
      stop, r, frmNxt, toNxt := true, w, i, at;
    case Take(n, o) =>
      ContinuesTake(whole, step, frm, i, done, to.Length);
      Write(to, at, o);
      stop, r, frmNxt, toNxt := false, Ok, i + n, at + |o|;
  }

  /**
   The conversion loop, from the input `frm[i..]` and the output position `start`.  It
   does what Convert says, and leaves what lies beyond the output it reports alone.
   */
  method Loop<A(!new), B(!new)>(step: Stepper<A, B>, frm: seq<A>, i: nat, to: array<B>, start: nat)
    returns (r: Result, frmNxt: nat, toNxt: nat)
    requires Bounded(step) && i <= |frm| && start <= to.Length
    modifies to
    ensures start <= toNxt <= to.Length && i <= frmNxt <= |frm|
    ensures Outcome(r, frmNxt, to[..toNxt]) == After(i, old(to[..start]), Convert(step, frm[i..], to.Length - start))
    ensures to[toNxt..] == old(to[toNxt..])
  {
    ghost var was, whole := to[..], After(i, to[..start], Convert(step, frm[i..], to.Length - start));
    frmNxt, toNxt := i, start;
    hide Convert, Bounded, After;
    while frmNxt < |frm|
      invariant i <= frmNxt <= |frm| && start <= toNxt <= to.Length
      invariant Continues(whole, step, frm, frmNxt, to[..toNxt], to.Length)
      invariant to[..][toNxt..] == was[toNxt..]
      decreases |frm| - frmNxt
    {
      hide Continues;
      ghost var at, mid := toNxt, to[..];
      var stop;
      stop, r, frmNxt, toNxt := Round(step, frm, frmNxt, to, toNxt, whole);
      SameTail(mid, was, at, toNxt);
      if stop {
        return;
      }
    }
    hide Continues;
    ContinuesStop(whole, step, frm, frmNxt, to[..toNxt], to.Length);
    r := Ok;
  }

  /** A converter to octets. */
  method Encode<A(!new)>(step: Stepper<A, bv8>, header: seq<bv8>, generate: bool, frm: seq<A>, to: array<bv8>)
    returns (r: Result, frmNxt: nat, toNxt: nat)
    requires Bounded(step)
    modifies to
    ensures toNxt <= to.Length && frmNxt <= |frm|
    ensures Outcome(r, frmNxt, to[..toNxt]) == Encoded(step, header, generate, frm, to.Length)
    ensures to[toNxt..] == old(to[toNxt..])
  {
    hide Bounded, Convert;
    toNxt := 0;
    if generate {
      if to.Length < |header| {
        return Partial, 0, 0;
      }
      Write(to, 0, header);
      toNxt := |header|;
    }
    ghost var start := to[..toNxt];
    assert start == if generate then header else [];
    r, frmNxt, toNxt := Loop(step, frm, 0, to, toNxt);
    FromTheStart(step, frm, to.Length - |start|);
  }

  /** A converter from octets. */
  method Decode<B(!new)>(step: Stepper<bv8, B>, header: seq<bv8>, consume: bool, frm: seq<bv8>, to: array<B>)
    returns (r: Result, frmNxt: nat, toNxt: nat)
    requires Bounded(step)
    modifies to
    ensures toNxt <= to.Length && frmNxt <= |frm|
    ensures Outcome(r, frmNxt, to[..toNxt]) == Decoded(step, header, consume, frm, to.Length)
    ensures to[toNxt..] == old(to[toNxt..])
  {
    hide Bounded, Convert;
    frmNxt := HeaderSize(header, consume, frm);
    r, frmNxt, toNxt := Loop(step, frm, frmNxt, to, 0);
  }

  // -- what the header modes mean

  /** Without generate_header nothing but the conversion; with it the header first, or nothing and partial. */
  lemma EncodedMeans<A(!new)>(step: Stepper<A, bv8>, header: seq<bv8>, generate: bool, frm: seq<A>, room: nat)
    requires Bounded(step)
    ensures var e := Encoded(step, header, generate, frm, room);
            if !generate then e == Convert(step, frm, room)
            else if room < |header| then e.result == Partial && e.consumed == 0 && e.out == []
            else
              && header <= e.out
              && Outcome(e.result, e.consumed, e.out[|header|..]) == Convert(step, frm, room - |header|)
  {
    hide Bounded, Convert;
    if generate && |header| <= room {
      var out := Convert(step, frm, room - |header|).out;
      assert (header + out)[|header|..] == out;
    }
  }

  /** Only with consume_header, and only where the input starts with it, the header is skipped, and counted. */
  lemma DecodedMeans<B(!new)>(step: Stepper<bv8, B>, header: seq<bv8>, consume: bool, frm: seq<bv8>, room: nat)
    requires Bounded(step)
    ensures var d := Decoded(step, header, consume, frm, room);
            if consume && header <= frm then
              var rest := Convert(step, frm[|header|..], room);
              d.result == rest.result && d.consumed == |header| + rest.consumed && d.out == rest.out
            else d == Convert(step, frm, room)
  {
    hide Bounded, Convert;
    assert frm[0..] == frm;
  }

  lemma HeaderIsByteOrderMark(e: Endian)
    ensures Utf8Of(0xFEFF) == UTF8_HEADER && Utf16Octets(e, 0xFEFF) == Utf16Header(e)
  {
  }

  /** Only a text that starts with a character starts with the octets of the character. */
  lemma FirstCharacter<B(!new)>(step: Stepper<bv8, B>, src: bv32 -> seq<bv8>, dst: bv32 -> seq<B>, domain: bv32 -> bool,
                                c: bv32, cs: seq<bv32>)
    requires Translates(step, src, dst, domain) && domain(c) && AllIn(domain, cs) && src(c) <= Text(src, cs)
    requires forall a, b {:trigger dst(a), dst(b)} :: domain(a) && domain(b) && dst(a) == dst(b) ==> a == b
    ensures cs != [] && cs[0] == c
  {
    var f := Text(src, cs);
    var g := f[|src(c)|..];
    assert f == src(c) + g;
    var room := |dst(c)| + if cs == [] then 0 else |dst(cs[0])|;
    assert step(src(c) + g, room) == step(f, room);
    assert TakesAll(step, src, dst, c, g, room);
    if cs != [] {
      var d := cs[0];
      assert domain(d);
      assert step(src(d) + Text(src, cs[1..]), room) == step(f, room);
      assert TakesAll(step, src, dst, d, Text(src, cs[1..]), room);
    }
  }

  /** The characters left of a text after consume_header: all but a byte order mark at the start. */
  function WithoutMark(cs: seq<bv32>): (r: seq<bv32>) {
    if cs != [] && cs[0] == 0xFEFF then cs[1..] else cs
  }

  lemma {:induction false} Ucs4Text(cs: seq<bv32>)
    ensures Text(Ucs4Of, cs) == cs
    decreases |cs|
  {
    if cs != [] {
      Ucs4Text(cs[1..]);
    }
  }

  /**
   What header modes are stated about: a converter to octets and one back, that both accept
   the characters of a domain; and a decoder that tells the octets of all characters apart.
   */
  ghost predicate HeaderFormat<A(!new)>(enc: Stepper<A, bv8>, dec: Stepper<bv8, A>, wide: Stepper<bv8, bv32>,
                                        src: bv32 -> seq<A>, format: bv32 -> seq<bv8>, header: seq<bv8>,
                                        domain: bv32 -> bool) {
    && Bounded(enc) && Accepts(enc, src, format, domain)
    && Bounded(dec) && Accepts(dec, format, src, domain)
    && Translates(wide, format, Ucs4Of, UpTo(0x10FFFF)) && format(0xFEFF) == header
    && forall c {:trigger domain(c)} :: domain(c) ==> UpTo(0x10FFFF)(c)
  }

  /** The header is found at the start of a text exactly when its first character is the byte order mark. */
  lemma HeaderFound(wide: Stepper<bv8, bv32>, format: bv32 -> seq<bv8>, header: seq<bv8>, cs: seq<bv32>)
    requires Translates(wide, format, Ucs4Of, UpTo(0x10FFFF)) && format(0xFEFF) == header
    requires AllIn(UpTo(0x10FFFF), cs)
    ensures Text(format, cs)[HeaderSize(header, true, Text(format, cs))..] == Text(format, WithoutMark(cs))
  {
    hide Translates;
    if header <= Text(format, cs) {
      assert UpTo(0x10FFFF)(0xFEFF);
      FirstCharacter(wide, format, Ucs4Of, UpTo(0x10FFFF), 0xFEFF, cs);
    }
  }

  /** Reading a text, written with or without the header, when a header is consumed. */
  lemma HeaderConsumed<A(!new)>(enc: Stepper<A, bv8>, dec: Stepper<bv8, A>, wide: Stepper<bv8, bv32>,
                                src: bv32 -> seq<A>, format: bv32 -> seq<bv8>, header: seq<bv8>,
                                domain: bv32 -> bool, cs: seq<bv32>, generate: bool, room: nat)
    requires HeaderFormat(enc, dec, wide, src, format, header, domain)
    requires AllIn(domain, cs) && |Text(src, cs)| <= room
    ensures var s := if generate then header + Text(format, cs) else Text(format, cs);
            Decoded(dec, header, true, s, room) ==
            Outcome(Ok, |s|, Text(src, if generate then cs else WithoutMark(cs)))
  {
    AllButMark(src, domain, cs);
    hide Bounded, Convert, Translates, Accepts, HeaderSize;
    if generate {
      HeaderSkipped(header, Text(format, cs));
      AcceptedText(dec, format, src, domain, cs, room);
    } else {
      assert AllIn(UpTo(0x10FFFF), cs) by {
        forall i | 0 <= i < |cs| ensures UpTo(0x10FFFF)(cs[i]) { assert domain(cs[i]); }
      }
      hide AllIn;
      HeaderFound(wide, format, header, cs);
      AcceptedText(dec, format, src, domain, WithoutMark(cs), room);
    }
  }

  lemma HeaderSkipped(header: seq<bv8>, t: seq<bv8>)
    ensures HeaderSize(header, true, header + t) == |header| && (header + t)[|header|..] == t
  {
    assert (header + t)[..|header|] == header;
  }

  lemma AllButMark<A>(src: bv32 -> seq<A>, domain: bv32 -> bool, cs: seq<bv32>)
    requires AllIn(domain, cs)
    ensures AllIn(domain, WithoutMark(cs)) && |Text(src, WithoutMark(cs))| <= |Text(src, cs)|
  {
  }

  /**
   What is written with a header is read back whole by a reader that consumes it, even
   when the text itself starts with a byte order mark; without one the reader keeps
   everything but a byte order mark at the start.
   */
  lemma HeaderModes<A(!new)>(enc: Stepper<A, bv8>, dec: Stepper<bv8, A>, wide: Stepper<bv8, bv32>,
                             src: bv32 -> seq<A>, format: bv32 -> seq<bv8>, header: seq<bv8>,
                             domain: bv32 -> bool, cs: seq<bv32>, generate: bool, room: nat, room': nat)
    requires HeaderFormat(enc, dec, wide, src, format, header, domain)
    requires AllIn(domain, cs) && |header| + |Text(format, cs)| <= room && |Text(src, cs)| <= room'
    ensures HeadersKept(enc, dec, src, header, cs, generate, room, room')
  {
    HeaderConsumed(enc, dec, wide, src, format, header, domain, cs, generate, room');
    hide Bounded, Convert, Translates, Accepts, Decoded, AllIn;
    AcceptedText(enc, src, format, domain, cs, if generate then room - |header| else room);
  }

  ghost predicate HeadersKept<A(!new)>(enc: Stepper<A, bv8>, dec: Stepper<bv8, A>, src: bv32 -> seq<A>,
                                       header: seq<bv8>, cs: seq<bv32>, generate: bool, room: nat, room': nat)
    requires Bounded(enc) && Bounded(dec)
  {
    var e := Encoded(enc, header, generate, Text(src, cs), room);
    && e.result == Ok && e.consumed == |Text(src, cs)|
    && Decoded(dec, header, true, e.out, room') ==
       Outcome(Ok, |e.out|, Text(src, if generate then cs else WithoutMark(cs)))
  }

  /** UCS-4 and UTF-8. */
  lemma HeaderModesUtf8(m: bv32, cs: seq<bv32>, generate: bool, room: nat, room': nat)
    requires AllIn(UpTo(m), cs) && 3 + |Text(Utf8Of, cs)| <= room && |cs| <= room'
    ensures Bounded(Ucs4ToUtf8(m)) && Bounded(Utf8ToUcs4(m))
    ensures HeadersKept(Ucs4ToUtf8(m), Utf8ToUcs4(m), Ucs4Of, UTF8_HEADER, cs, generate, room, room')
  {
    Ucs4ToUtf8IsCodec(m);
    Utf8ToUcs4IsCodec(m);
    Ucs4ToUtf8Accepts(m);
    Utf8ToUcs4Translates(m);
    TranslatesAccepts(Utf8ToUcs4(m), Utf8Of, Ucs4Of, UpTo(m));
    Utf8ToUcs4Translates(0x10FFFF);
    HeaderIsByteOrderMark(Big);
    Ucs4Text(cs);
    hide Bounded, Monotone, Translates, Accepts, HeadersKept, Utf8Of, AllIn;
    HeaderModes(Ucs4ToUtf8(m), Utf8ToUcs4(m), Utf8ToUcs4(0x10FFFF), Ucs4Of, Utf8Of, UTF8_HEADER, UpTo(m),
                cs, generate, room, room');
  }

  /** UCS-4 and UTF-16 octets of either order. */
  lemma HeaderModesUtf16(e: Endian, m: bv32, cs: seq<bv32>, generate: bool, room: nat, room': nat)
    requires AllIn(UpTo(m), cs) && 2 + |Text(Utf16OctetsOf(e), cs)| <= room && |cs| <= room'
    ensures Bounded(Ucs4ToUtf16(e, m)) && Bounded(Utf16ToUcs4(e, m))
    ensures HeadersKept(Ucs4ToUtf16(e, m), Utf16ToUcs4(e, m), Ucs4Of, Utf16Header(e), cs, generate, room, room')
  {
    Ucs4ToUtf16IsCodec(e, m);
    Utf16ToUcs4IsCodec(e, m);
    Ucs4ToUtf16Accepts(e, m);
    Utf16ToUcs4Translates(e, m);
    TranslatesAccepts(Utf16ToUcs4(e, m), Utf16OctetsOf(e), Ucs4Of, UpTo(m));
    Utf16ToUcs4Translates(e, 0x10FFFF);
    HeaderIsByteOrderMark(e);
    Ucs4Text(cs);
    hide Bounded, Monotone, Translates, Accepts, HeadersKept, Utf16Octets, AllIn;
    HeaderModes(Ucs4ToUtf16(e, m), Utf16ToUcs4(e, m), Utf16ToUcs4(e, 0x10FFFF), Ucs4Of, Utf16OctetsOf(e),
                Utf16Header(e), UpTo(m), cs, generate, room, room');
  }

  /** UTF-16 units and UTF-8: for the characters that both directions take with this Maxcode. */
  lemma HeaderModesUnits(m: bv32, cs: seq<bv32>, generate: bool, room: nat, room': nat)
    requires AllIn(LeadUpTo(m), cs) && 3 + |Text(Utf8Of, cs)| <= room && |Text(Utf16Of, cs)| <= room'
    ensures Bounded(Utf16ToUtf8(m)) && Bounded(Utf8ToUtf16(m))
    ensures HeadersKept(Utf16ToUtf8(m), Utf8ToUtf16(m), Utf16Of, UTF8_HEADER, cs, generate, room, room')
  {
    Utf16ToUtf8IsCodec(m);
    Utf8ToUtf16IsCodec(m);
    Utf16ToUtf8Translates(m);
    TranslatesAccepts(Utf16ToUtf8(m), Utf16Of, Utf8Of, UpTo(m));
    Utf8ToUtf16Translates(m);
    TranslatesAccepts(Utf8ToUtf16(m), Utf8Of, Utf16Of, LeadUpTo(m));
    Utf8ToUcs4Translates(0x10FFFF);
    HeaderIsByteOrderMark(Big);
    hide Bounded, Monotone, Translates, HeadersKept, Utf8Of, Utf16Of, AllIn, IsScalar;
    AcceptsFewer(Utf16ToUtf8(m), Utf16Of, Utf8Of, UpTo(m), LeadUpTo(m));
    hide Accepts;
    HeaderModes(Utf16ToUtf8(m), Utf8ToUtf16(m), Utf8ToUcs4(0x10FFFF), Utf16Of, Utf8Of, UTF8_HEADER, LeadUpTo(m),
                cs, generate, room, room');
  }

  lemma AcceptsFewer<A(!new), B(!new)>(step: Stepper<A, B>, src: bv32 -> seq<A>, dst: bv32 -> seq<B>,
                                       domain: bv32 -> bool, fewer: bv32 -> bool)
    requires Accepts(step, src, dst, domain) && forall c {:trigger fewer(c)} :: fewer(c) ==> domain(c)
    ensures Accepts(step, src, dst, fewer)
  {
    forall c, g, room: nat | fewer(c) ensures TakesAll(step, src, dst, c, g, room) {
      var f := src(c) + g;
      assert step(src(c) + g, room) == step(f, room);
    }
  }

  /** UCS-2 and UTF-8. */
  lemma HeaderModesUcs2Utf8(m: bv32, cs: seq<bv32>, generate: bool, room: nat, room': nat)
    requires AllIn(NarrowUpTo(m), cs) && 3 + |Text(Utf8Of, cs)| <= room && |Text(Ucs2Of, cs)| <= room'
    ensures Bounded(Ucs2ToUtf8(m)) && Bounded(Utf8ToUcs2(m))
    ensures HeadersKept(Ucs2ToUtf8(m), Utf8ToUcs2(m), Ucs2Of, UTF8_HEADER, cs, generate, room, room')
  {
    Ucs2ToUtf8IsCodec(m);
    Utf8ToUcs2IsCodec(m);
    Ucs2ToUtf8Translates(m);
    TranslatesAccepts(Ucs2ToUtf8(m), Ucs2Of, Utf8Of, NarrowUpTo(m));
    Utf8ToUcs2Translates(m);
    TranslatesAccepts(Utf8ToUcs2(m), Utf8Of, Ucs2Of, NarrowUpTo(m));
    Utf8ToUcs4Translates(0x10FFFF);
    HeaderIsByteOrderMark(Big);
    hide Bounded, Monotone, Translates, Accepts, HeadersKept, Utf8Of, Ucs2Of, AllIn, IsScalar;
    HeaderModes(Ucs2ToUtf8(m), Utf8ToUcs2(m), Utf8ToUcs4(0x10FFFF), Ucs2Of, Utf8Of, UTF8_HEADER, NarrowUpTo(m),
                cs, generate, room, room');
  }

  /** UCS-2 and UTF-16 octets of either order. */
  lemma HeaderModesUcs2Utf16(e: Endian, m: bv32, cs: seq<bv32>, generate: bool, room: nat, room': nat)
    requires AllIn(NarrowUpTo(m), cs) && 2 + |Text(Utf16OctetsOf(e), cs)| <= room && |Text(Ucs2Of, cs)| <= room'
    ensures Bounded(Ucs2ToUtf16(e, m)) && Bounded(Utf16ToUcs2(e, m))
    ensures HeadersKept(Ucs2ToUtf16(e, m), Utf16ToUcs2(e, m), Ucs2Of, Utf16Header(e), cs, generate, room, room')
  {
    Ucs2ToUtf16IsCodec(e, m);
    Utf16ToUcs2IsCodec(e, m);
    Ucs2ToUtf16Translates(e, m);
    TranslatesAccepts(Ucs2ToUtf16(e, m), Ucs2Of, Utf16OctetsOf(e), NarrowUpTo(m));
    Utf16ToUcs2Translates(e, m);
    TranslatesAccepts(Utf16ToUcs2(e, m), Utf16OctetsOf(e), Ucs2Of, NarrowUpTo(m));
    Utf16ToUcs4Translates(e, 0x10FFFF);
    HeaderIsByteOrderMark(e);
    hide Bounded, Monotone, Translates, Accepts, HeadersKept, Utf16Octets, Ucs2Of, AllIn, IsScalar;
    HeaderModes(Ucs2ToUtf16(e, m), Utf16ToUcs2(e, m), Utf16ToUcs4(e, 0x10FFFF), Ucs2Of, Utf16OctetsOf(e),
                Utf16Header(e), NarrowUpTo(m), cs, generate, room, room');
  }
}
