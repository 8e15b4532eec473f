/**
 The formats of libcxx/src/locale.cpp by place value: which digits of a character its
 octets or units hold.
 */
module CodecValues {
  import opened CodecBits
  import opened CodecFormats

  /** Digit number `k` in base 64, the last one first, as an octet that is not the first. */
  function Digit(c: bv32, k: nat): (v: bv32) {
    0x80 + (if k == 0 then c % 64 else if k == 1 then c / 64 % 64 else c / 4096 % 64)
  }

  /** The digits before the last `n - 1`, as the first of `n` octets. */
  function Lead(c: bv32, n: nat): (v: bv32) {
    if n == 2 then 0xC0 + c / 64 else if n == 3 then 0xE0 + c / 4096 else 0xF0 + c / 262144
  }

  lemma LeadByValue(c: bv32)
    requires c <= 0x10FFFF
    ensures c < 0x80 ==> Low8(c) as bv32 == c
    ensures 0x80 <= c < 0x800 ==> Lead2(c) as bv32 == Lead(c, 2)
    ensures 0x800 <= c < 0x10000 ==> Lead3(c) as bv32 == Lead(c, 3)
    ensures 0x10000 <= c ==> Lead4(c) as bv32 == Lead(c, 4)
  {
  }

  lemma TrailByValue(c: bv32)
    ensures Trail0(c) as bv32 == Digit(c, 0) && Trail1(c) as bv32 == Digit(c, 1) && Trail2(c) as bv32 == Digit(c, 2)
  {
  }

  /** The octets have the given values. */
  ghost predicate Octets(s: seq<bv8>, values: seq<bv32>) {
    |s| == |values| && forall i :: 0 <= i < |s| ==> s[i] as bv32 == values[i]
  }

  lemma OctetsAre(o: bv8, v: bv32, s: seq<bv8>, values: seq<bv32>)
    requires o as bv32 == v && Octets(s, values)
    ensures Octets([o] + s, [v] + values)
  {
  }

  lemma OneOctet(o: bv8, v: bv32)
    requires o as bv32 == v
    ensures Octets([o], [v])
  {
  }

  lemma TwoOctets(o: bv8, v: bv32, o': bv8, v': bv32)
    requires o as bv32 == v && o' as bv32 == v'
    ensures Octets([o, o'], [v, v'])
  {
  }

  /** The values of the octets of a character: its digits in base 64, in as few octets as hold them. */
  function Utf8Values(c: bv32): (values: seq<bv32>) {
    if c < 0x80 then [c]
    else if c < 0x800 then [Lead(c, 2), Digit(c, 0)]
    else if c < 0x10000 then [Lead(c, 3)] + [Digit(c, 1), Digit(c, 0)]
    else [Lead(c, 4)] + ([Digit(c, 2)] + [Digit(c, 1), Digit(c, 0)])
  }

  lemma Utf8ValueParts(c: bv32)
    ensures Utf8Values(c) ==
            if c < 0x80 then [c]
            else if c < 0x800 then [Lead(c, 2), Digit(c, 0)]
            else if c < 0x10000 then [Lead(c, 3)] + [Digit(c, 1), Digit(c, 0)]
            else [Lead(c, 4)] + ([Digit(c, 2)] + [Digit(c, 1), Digit(c, 0)])
  {
    hide Lead, Digit;
  }

  lemma Utf8ByValue(c: bv32)
    requires c <= 0x10FFFF
    ensures Octets(Utf8Of(c), Utf8Values(c))
  {
    hide *;
    LeadByValue(c);
    TrailByValue(c);
    Utf8Parts(c);
    Utf8ValueParts(c);
    TwoOctets(Trail1(c), Digit(c, 1), Trail0(c), Digit(c, 0));
    OctetsAre(Trail2(c), Digit(c, 2), [Trail1(c), Trail0(c)], [Digit(c, 1), Digit(c, 0)]);
    if c < 0x80 {
      OneOctet(Low8(c), c);
    } else if c < 0x800 {
      TwoOctets(Lead2(c), Lead(c, 2), Trail0(c), Digit(c, 0));
    } else if c < 0x10000 {
      OctetsAre(Lead3(c), Lead(c, 3), [Trail1(c), Trail0(c)], [Digit(c, 1), Digit(c, 0)]);
    } else {
      OctetsAre(Lead4(c), Lead(c, 4), [Trail2(c)] + [Trail1(c), Trail0(c)], [Digit(c, 2)] + [Digit(c, 1), Digit(c, 0)]);
    }
  }

  lemma Utf8Parts(c: bv32)
    ensures Utf8Of(c) ==
            if c < 0x80 then [Low8(c)]
            else if c < 0x800 then [Lead2(c), Trail0(c)]
            else if c < 0x10000 then [Lead3(c)] + [Trail1(c), Trail0(c)]
            else [Lead4(c)] + ([Trail2(c)] + [Trail1(c), Trail0(c)])
  {
    hide Low8, Lead2, Lead3, Lead4, Trail0, Trail1, Trail2;
  }

  /** The two surrogates hold the two digits in base 1024 of what is beyond 0x10000. */
  function HighValue(c: bv32): (v: bv32) { 0xD800 + (c - 0x10000) / 0x400 }

  function LowValue(c: bv32): (v: bv32) { 0xDC00 + (c - 0x10000) % 0x400 }

  lemma UnitsByValue(c: bv32)
    requires c <= 0x10FFFF
    ensures c < 0x10000 ==> Low16(c) as bv32 == c
    ensures 0x10000 <= c ==> Low16(High(c)) as bv32 == HighValue(c) && Low16(Low(c)) as bv32 == LowValue(c)
  {
  }

  /** UTF-16: one unit, or two surrogates. */
  lemma Utf16ByValue(c: bv32) returns (high: bv16, low: bv16)
    requires c <= 0x10FFFF
    ensures c < 0x10000 ==> Utf16Of(c) == [low] && low as bv32 == c
    ensures 0x10000 <= c ==> Utf16Of(c) == [high, low] && high as bv32 == HighValue(c) && low as bv32 == LowValue(c)
  {
    hide *;
    UnitsByValue(c);
    Utf16Parts(c);
    if c < 0x10000 {
      high, low := 0, Low16(c);
    } else {
      high, low := Low16(High(c)), Low16(Low(c));
    }
  }

  lemma Utf16Parts(c: bv32)
    ensures c < 0x10000 ==> Utf16Of(c) == [Low16(c)]
    ensures 0x10000 <= c ==> Utf16Of(c) == [Low16(High(c)), Low16(Low(c))]
  {
    hide Low16, High, Low;
  }

  /** The octets of a unit, the more significant one first in big-endian order. */
  lemma OctetOrder(w: bv32)
    requires w < 0x10000
    ensures First(Big, w) as bv32 == w / 256 && Second(Big, w) as bv32 == w % 256
    ensures Second(Little, w) == First(Big, w) && First(Little, w) == Second(Big, w)
  {
  }

  /** UCS-4 and UCS-2 are the number itself. */
  lemma UcsByValue(c: bv32) returns (w: bv16)
    ensures Ucs4Of(c) == [c] && Ucs2Of(c) == [w] && (c < 0x10000 ==> w as bv32 == c)
  {
    w := Low16(c);
    if c < 0x10000 {
      UnitsByValue(c);
    }
    hide Low16;
  }
}
