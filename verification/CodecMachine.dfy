/**
 What the converters of libcxx/src/locale.cpp have in common.  A converter is a loop
 over one step: the step looks at the input that is left and at the output room that
 is left, and either converts one character or stops.  The results about running,
 interrupting and undoing a conversion are proved here once for every converter.
 */
module CodecMachine {

  datatype Result = Ok | Partial | Error

  datatype Step<B> = Take(used: nat, made: seq<B>) | Stop(why: Result)

  /** What a conversion reports: its result, how much input it used up, and what it wrote. */
  datatype Outcome<B> = Outcome(result: Result, consumed: nat, out: seq<B>)

  type Stepper<!A, !B> = (seq<A>, nat) -> Step<B>

  /** A step uses up some input, writes some output within the room, and never stops with ok. */
  ghost predicate Bounded<A(!new), B(!new)>(step: Stepper<A, B>) {
    forall f, room {:trigger step(f, room)} :: f != [] ==> BoundedAt(step, f, room)
  }

  ghost predicate BoundedAt<A, B>(step: Stepper<A, B>, f: seq<A>, room: nat) {
    match step(f, room)
    case Take(n, o) => 1 <= n <= |f| && 1 <= |o| <= room
    case Stop(w) => w != Ok
  }

  /** More input or more room changes nothing unless the step was waiting for it. */
  ghost predicate Monotone<A(!new), B(!new)>(step: Stepper<A, B>) {
    forall f, g, room, room' {:trigger step(f, room), step(f + g, room')} ::
      f != [] && room <= room' && step(f, room) != Stop(Partial) ==> step(f + g, room') == step(f, room)
  }

  ghost predicate Codec<A(!new), B(!new)>(step: Stepper<A, B>) {
    Bounded(step) && Monotone(step)
  }

  function After<B>(n: nat, o: seq<B>, rest: Outcome<B>): (r: Outcome<B>) {
    Outcome(rest.result, n + rest.consumed, o + rest.out)
  }

  ghost function Convert<A(!new), B(!new)>(step: Stepper<A, B>, frm: seq<A>, room: nat): (r: Outcome<B>)
    requires Bounded(step)
    ensures r.consumed <= |frm| && |r.out| <= room
    ensures r.result == Ok ==> r.consumed == |frm|
    decreases |frm|
  {
    if frm == [] then Outcome(Ok, 0, [])
    else
      match step(frm, room)
      case Take(n, o) => After(n, o, Convert(step, frm[n..], room - |o|))
      case Stop(w) => Outcome(w, 0, [])
  }

  /** One round of the loop. */
  lemma ConvertTake<A(!new), B(!new)>(step: Stepper<A, B>, frm: seq<A>, room: nat)
    requires Bounded(step) && frm != [] && step(frm, room).Take?
    ensures var Take(n, o) := step(frm, room);
            1 <= n <= |frm| && 1 <= |o| <= room &&
            Convert(step, frm, room) == After(n, o, Convert(step, frm[n..], room - |o|))
  {
  }

  lemma DropDrop<A>(s: seq<A>, n: nat, m: nat)
    requires n + m <= |s|
    ensures s[n..][m..] == s[n + m..]
  {
  }

  /** What a call with more input and more room reports, if it resumes a first call. */
  ghost function Resumed<A(!new), B(!new)>(step: Stepper<A, B>, all: seq<A>, room: nat,
      first: Outcome<B>): (r: Outcome<B>)
    requires Bounded(step) && first.consumed <= |all| && |first.out| <= room
  {
    if first.result == Error then first
    else After(first.consumed, first.out, Convert(step, all[first.consumed..], room - |first.out|))
  }

  lemma ResumedAfter<A(!new), B(!new)>(step: Stepper<A, B>, all: seq<A>, room: nat, n: nat, o: seq<B>, rest: Outcome<B>)
    requires Bounded(step) && n + rest.consumed <= |all| && |o| + |rest.out| <= room
    ensures Resumed(step, all, room, After(n, o, rest)) == After(n, o, Resumed(step, all[n..], room - |o|, rest))
  {
  }

  /**
   Resuming: after any stop but an error, converting the input that is left, with more
   input or more room, completes the work as one call with everything would have.
   An error stays the same error in the same place.
   */
  lemma {:induction false} Resume<A(!new), B(!new)>(step: Stepper<A, B>, frm: seq<A>, more: seq<A>, room: nat,
      room': nat)
    requires Codec(step) && room <= room'
    ensures Convert(step, frm + more, room') == Resumed(step, frm + more, room', Convert(step, frm, room))
    decreases |frm|
  {
    hide Resumed, Convert, Bounded, Monotone;
    var all := frm + more;
    if frm == [] || step(frm, room).Stop? {
      ResumeStop(step, frm, more, room, room');
    } else {
      var Take(n, o) := step(frm, room);
      ResumeTake(step, frm, more, room, room');
      Resume(step, frm[n..], more, room - |o|, room' - |o|);
      ResumedAfter(step, all, room', n, o, Convert(step, frm[n..], room - |o|));
    }
  }

  lemma ResumeStop<A(!new), B(!new)>(step: Stepper<A, B>, frm: seq<A>, more: seq<A>, room: nat, room': nat)
    requires Codec(step) && room <= room'
    requires frm == [] || step(frm, room).Stop?
    ensures Convert(step, frm + more, room') == Resumed(step, frm + more, room', Convert(step, frm, room))
  {
    var all := frm + more;
    FromTheStart(step, all, room');
    if frm != [] && step(frm, room) == Stop(Error) {
      assert step(all, room') == Stop(Error);
    }
  }

  lemma FromTheStart<A(!new), B(!new)>(step: Stepper<A, B>, frm: seq<A>, room: nat)
    requires Bounded(step)
    ensures After(0, [], Convert(step, frm[0..], room)) == Convert(step, frm, room)
  {
    hide Convert;
    assert frm[0..] == frm;
    assert [] + Convert(step, frm, room).out == Convert(step, frm, room).out;
  }

  lemma ResumeTake<A(!new), B(!new)>(step: Stepper<A, B>, frm: seq<A>, more: seq<A>, room: nat, room': nat)
    requires Codec(step) && room <= room' && frm != [] && step(frm, room).Take?
    ensures var Take(n, o) := step(frm, room);
            1 <= n <= |frm| && |o| <= room && (frm + more)[n..] == frm[n..] + more &&
            Convert(step, frm, room) == After(n, o, Convert(step, frm[n..], room - |o|)) &&
            Convert(step, frm + more, room') == After(n, o, Convert(step, (frm + more)[n..], room' - |o|))
  {
    hide Convert;
    var Take(n, o) := step(frm, room);
    assert step(frm + more, room') == Take(n, o);
    ConvertTake(step, frm, room);
    ConvertTake(step, frm + more, room');
    assert (frm + more)[n..] == frm[n..] + more;
  }

  /** The text of a sequence of characters in one format, given what the format writes for each. */
  ghost function Text<A>(format: bv32 -> seq<A>, cs: seq<bv32>): (r: seq<A>) {
    if cs == [] then [] else format(cs[0]) + Text(format, cs[1..])
  }

  ghost predicate AllIn(domain: bv32 -> bool, cs: seq<bv32>) {
    forall i :: 0 <= i < |cs| ==> domain(cs[i])
  }

  /**
   The step takes exactly the characters of the domain from one format to the other:
   it takes nothing else, and with room it takes each of them whatever comes after.
   */
  ghost predicate Translates<A(!new), B(!new)>(step: Stepper<A, B>, src: bv32 -> seq<A>, dst: bv32 -> seq<B>,
      domain: bv32 -> bool) {
    && (forall f, room {:trigger step(f, room)} :: f != [] ==> TakesOnly(step, src, dst, domain, f, room))
    && (forall c, g, room {:trigger step(src(c) + g, room)} :: domain(c) ==> TakesAll(step, src, dst, c, g, room))
  }

  ghost predicate TakesOnly<A, B>(step: Stepper<A, B>, src: bv32 -> seq<A>, dst: bv32 -> seq<B>,
      domain: bv32 -> bool, f: seq<A>, room: nat) {
    step(f, room).Take? ==> exists c :: domain(c) && Copies(step(f, room), src(c), dst(c)) && src(c) <= f
  }

  ghost predicate TakesAll<A, B>(step: Stepper<A, B>, src: bv32 -> seq<A>, dst: bv32 -> seq<B>, c: bv32, g: seq<A>,
      room: nat) {
    src(c) != [] && (|dst(c)| <= room ==> Copies(step(src(c) + g, room), src(c), dst(c)))
  }

  ghost predicate Copies<A, B>(s: Step<B>, read: seq<A>, written: seq<B>) {
    s == Take(|read|, written)
  }

  lemma TakenCharacter<A(!new), B(!new)>(step: Stepper<A, B>, src: bv32 -> seq<A>, dst: bv32 -> seq<B>,
      domain: bv32 -> bool, f: seq<A>, room: nat)
    returns (c: bv32)
    requires Translates(step, src, dst, domain) && f != [] && step(f, room).Take?
    ensures domain(c) && step(f, room) == Take(|src(c)|, dst(c)) && src(c) <= f
  {
    c :| domain(c) && Copies(step(f, room), src(c), dst(c)) && src(c) <= f;
  }

  /** Whatever a conversion used up is the text of some characters, and it wrote the text of the same ones. */
  lemma {:induction false} OnlyWholeCharacters<A(!new), B(!new)>(
      step: Stepper<A, B>, src: bv32 -> seq<A>, dst: bv32 -> seq<B>, domain: bv32 -> bool, f: seq<A>, room: nat)
    returns (cs: seq<bv32>)
    requires Bounded(step) && Translates(step, src, dst, domain)
    ensures var r := Convert(step, f, room);
            AllIn(domain, cs) && f[..r.consumed] == Text(src, cs) && r.out == Text(dst, cs)
    decreases |f|
  {
    hide Bounded, Translates, Convert;
    if f == [] || step(f, room).Stop? {
      cs := [];
      StopsHere(step, f, room);
    } else {
      var c := TakenCharacter(step, src, dst, domain, f, room);
      ConvertTake(step, f, room);
      var rest := OnlyWholeCharacters(step, src, dst, domain, f[|src(c)|..], room - |dst(c)|);
      cs := [c] + rest;
      TextCons(src, c, rest);
      TextCons(dst, c, rest);
      PrefixCons(src(c), f, Convert(step, f[|src(c)|..], room - |dst(c)|).consumed);
    }
  }

  lemma StopsHere<A(!new), B(!new)>(step: Stepper<A, B>, f: seq<A>, room: nat)
    requires Bounded(step) && (f == [] || step(f, room).Stop?)
    ensures Convert(step, f, room).consumed == 0 && Convert(step, f, room).out == []
    ensures Convert(step, f, room).result == Ok <==> f == []
  {
  }

  lemma TextCons<A>(format: bv32 -> seq<A>, c: bv32, cs: seq<bv32>)
    ensures Text(format, [c] + cs) == format(c) + Text(format, cs)
  {
    assert ([c] + cs)[1..] == cs;
  }

  lemma PrefixCons<A>(s: seq<A>, f: seq<A>, n: nat)
    requires s <= f && |s| + n <= |f|
    ensures f[..|s| + n] == s + f[|s|..][..n]
  {
  }

  /** With room the step takes each character of the domain, whatever comes after. */
  ghost predicate Accepts<A(!new), B(!new)>(step: Stepper<A, B>, src: bv32 -> seq<A>, dst: bv32 -> seq<B>,
      domain: bv32 -> bool) {
    forall c, g, room {:trigger step(src(c) + g, room)} :: domain(c) ==> TakesAll(step, src, dst, c, g, room)
  }

  lemma TranslatesAccepts<A(!new), B(!new)>(step: Stepper<A, B>, src: bv32 -> seq<A>, dst: bv32 -> seq<B>,
      domain: bv32 -> bool)
    requires Translates(step, src, dst, domain)
    ensures Accepts(step, src, dst, domain)
  {
    forall c, g, room: nat | domain(c) ensures TakesAll(step, src, dst, c, g, room) {
      var f := src(c) + g;
      assert step(src(c) + g, room) == step(f, room);
    }
  }

  lemma CharacterAccepted<A(!new), B(!new)>(
      step: Stepper<A, B>, src: bv32 -> seq<A>, dst: bv32 -> seq<B>, domain: bv32 -> bool, c: bv32, rest: seq<A>,
      room: nat)
    requires Bounded(step) && Accepts(step, src, dst, domain) && domain(c) && |dst(c)| <= room
    ensures Convert(step, src(c) + rest, room) == After(|src(c)|, dst(c), Convert(step, rest, room - |dst(c)|))
  {
    var f := src(c) + rest;
    assert step(src(c) + rest, room) == step(f, room);
    assert TakesAll(step, src, dst, c, rest, room);
    hide Accepts, Bounded, Convert;
    ConvertTake(step, f, room);
    assert f[|src(c)|..] == rest;
  }

  lemma {:induction false} AcceptedText<A(!new), B(!new)>(
      step: Stepper<A, B>, src: bv32 -> seq<A>, dst: bv32 -> seq<B>, domain: bv32 -> bool, cs: seq<bv32>, room: nat)
    requires Bounded(step) && Accepts(step, src, dst, domain)
    requires AllIn(domain, cs) && |Text(dst, cs)| <= room
    ensures Convert(step, Text(src, cs), room) == Outcome(Ok, |Text(src, cs)|, Text(dst, cs))
    decreases |cs|
  {
    if cs != [] {
      hide Bounded, Convert, Accepts;
      var c, rest := cs[0], Text(src, cs[1..]);
      CharacterAccepted(step, src, dst, domain, c, rest, room);
      AcceptedText(step, src, dst, domain, cs[1..], room - |dst(c)|);
    }
  }

  /** With room for what they become, the characters of a text are all converted. */
  lemma EveryCharacter<A(!new), B(!new)>(
      step: Stepper<A, B>, src: bv32 -> seq<A>, dst: bv32 -> seq<B>, domain: bv32 -> bool, cs: seq<bv32>, room: nat)
    requires Bounded(step) && Translates(step, src, dst, domain)
    requires AllIn(domain, cs) && |Text(dst, cs)| <= room
    ensures Convert(step, Text(src, cs), room) == Outcome(Ok, |Text(src, cs)|, Text(dst, cs))
  {
    TranslatesAccepts(step, src, dst, domain);
    hide Bounded, Convert, Translates, Accepts, AllIn;
    AcceptedText(step, src, dst, domain, cs, room);
  }

  lemma CharacterTaken<A(!new), B(!new)>(
      step: Stepper<A, B>, src: bv32 -> seq<A>, dst: bv32 -> seq<B>, domain: bv32 -> bool, c: bv32, rest: seq<A>,
      room: nat)
    requires Bounded(step) && Translates(step, src, dst, domain) && domain(c) && |dst(c)| <= room
    ensures Convert(step, src(c) + rest, room) == After(|src(c)|, dst(c), Convert(step, rest, room - |dst(c)|))
  {
    TranslatesAccepts(step, src, dst, domain);
    hide Bounded, Convert, Translates, Accepts;
    CharacterAccepted(step, src, dst, domain, c, rest, room);
  }

  /** A text converts with ok, given the room, exactly when it is the text of characters of the domain. */
  ghost predicate IsText<A(!new)>(format: bv32 -> seq<A>, domain: bv32 -> bool, f: seq<A>) {
    exists cs :: AllIn(domain, cs) && f == Text(format, cs)
  }

  /** No character of the domain is written in more than four units, or read from none. */
  ghost predicate Narrow<A(!new), B(!new)>(src: bv32 -> seq<A>, dst: bv32 -> seq<B>, domain: bv32 -> bool) {
    forall c {:trigger domain(c)} :: domain(c) ==> 1 <= |src(c)| && |dst(c)| <= 4
  }

  lemma {:induction false} TextWidth<A(!new), B(!new)>(src: bv32 -> seq<A>, dst: bv32 -> seq<B>,
      domain: bv32 -> bool, cs: seq<bv32>)
    requires Narrow(src, dst, domain) && AllIn(domain, cs)
    ensures |Text(dst, cs)| <= 4 * |Text(src, cs)|
    decreases |cs|
  {
    if cs != [] {
      var c := cs[0];
      assert domain(c);
      TextWidth(src, dst, domain, cs[1..]);
    }
  }

  lemma FinishesExactlyOnTexts<A(!new), B(!new)>(
      step: Stepper<A, B>, src: bv32 -> seq<A>, dst: bv32 -> seq<B>, domain: bv32 -> bool, f: seq<A>, room: nat)
    requires Bounded(step) && Translates(step, src, dst, domain)
    requires Narrow(src, dst, domain) && 4 * |f| <= room
    ensures Convert(step, f, room).result == Ok <==> IsText(src, domain, f)
  {
    hide Bounded, Translates, Convert, Narrow;
    if Convert(step, f, room).result == Ok {
      var cs := OnlyWholeCharacters(step, src, dst, domain, f, room);
      assert f[..|f|] == f;
    }
    if IsText(src, domain, f) {
      var cs :| AllIn(domain, cs) && f == Text(src, cs);
      TextWidth(src, dst, domain, cs);
      EveryCharacter(step, src, dst, domain, cs, room);
    }
  }

  /**
   Two converters from the same format with the same domain, both with ample room,
   stop at the same place, having written the same characters.
   */
  lemma {:induction false} SameCharacters<A(!new), B(!new), C(!new)>(
      step: Stepper<A, B>, step': Stepper<A, C>, src: bv32 -> seq<A>, dst: bv32 -> seq<B>, dst': bv32 -> seq<C>,
      domain: bv32 -> bool, f: seq<A>, room: nat, room': nat)
    returns (cs: seq<bv32>)
    requires Bounded(step) && Translates(step, src, dst, domain) && Narrow(src, dst, domain) && 4 * |f| <= room
    requires Bounded(step') && Translates(step', src, dst', domain) && Narrow(src, dst', domain) && 4 * |f| <= room'
    ensures var r, r' := Convert(step, f, room), Convert(step', f, room');
            && AllIn(domain, cs) && r.consumed == r'.consumed == |Text(src, cs)|
            && r.out == Text(dst, cs) && r'.out == Text(dst', cs) && (r.result == Ok <==> r'.result == Ok)
    decreases |f|
  {
    hide Bounded, Translates, Narrow, Convert;
    if f == [] || (step(f, room).Stop? && step'(f, room').Stop?) {
      cs := [];
      StopsHere(step, f, room);
      StopsHere(step', f, room');
    } else {
      var c := SameCharacter(step, step', src, dst, dst', domain, f, room, room');
      var g := f[|src(c)|..];
      var rest := SameCharacters(step, step', src, dst, dst', domain, g, room - |dst(c)|, room' - |dst'(c)|);
      cs := [c] + rest;
      TextCons(src, c, rest);
      TextCons(dst, c, rest);
      TextCons(dst', c, rest);
    }
  }

  lemma SameCharacter<A(!new), B(!new), C(!new)>(
      step: Stepper<A, B>, step': Stepper<A, C>, src: bv32 -> seq<A>, dst: bv32 -> seq<B>, dst': bv32 -> seq<C>,
      domain: bv32 -> bool, f: seq<A>, room: nat, room': nat)
    returns (c: bv32)
    requires Bounded(step) && Translates(step, src, dst, domain) && Narrow(src, dst, domain) && 4 * |f| <= room
    requires Bounded(step') && Translates(step', src, dst', domain) && Narrow(src, dst', domain) && 4 * |f| <= room'
    requires f != [] && (step(f, room).Take? || step'(f, room').Take?)
    ensures domain(c) && src(c) <= f && 1 <= |src(c)| && |dst(c)| <= 4 && |dst'(c)| <= 4
    ensures Convert(step, f, room) == After(|src(c)|, dst(c), Convert(step, f[|src(c)|..], room - |dst(c)|))
    ensures Convert(step', f, room') == After(|src(c)|, dst'(c), Convert(step', f[|src(c)|..], room' - |dst'(c)|))
  {
    hide Bounded, Translates, Convert;
    if step(f, room).Take? {
      c := TakenCharacter(step, src, dst, domain, f, room);
    } else {
      c := TakenCharacter(step', src, dst', domain, f, room');
    }
    var g := f[|src(c)|..];
    assert f == src(c) + g;
    CharacterTaken(step, src, dst, domain, c, g, room);
    CharacterTaken(step', src, dst', domain, c, g, room');
  }

  /**
   A conversion only ever stops between characters: what it has used up converts, on
   its own and into exactly the room it filled, to what it has written.
   */
  lemma StopsBetweenCharacters<A(!new), B(!new)>(
      step: Stepper<A, B>, src: bv32 -> seq<A>, dst: bv32 -> seq<B>, domain: bv32 -> bool, f: seq<A>, room: nat)
    requires Bounded(step) && Translates(step, src, dst, domain)
    ensures var r := Convert(step, f, room);
            Convert(step, f[..r.consumed], |r.out|) == Outcome(Ok, r.consumed, r.out)
  {
    var cs := OnlyWholeCharacters(step, src, dst, domain, f, room);
    EveryCharacter(step, src, dst, domain, cs, |Text(dst, cs)|);
  }

  /** A finished conversion does not depend on how much room was left over. */
  lemma RoomToSpare<A(!new), B(!new)>(
      step: Stepper<A, B>, src: bv32 -> seq<A>, dst: bv32 -> seq<B>, domain: bv32 -> bool, f: seq<A>, room: nat,
          room': nat)
    requires Bounded(step) && Translates(step, src, dst, domain)
    requires Convert(step, f, room).result == Ok && |Convert(step, f, room).out| <= room'
    ensures Convert(step, f, room') == Convert(step, f, room)
  {
    var cs := OnlyWholeCharacters(step, src, dst, domain, f, room);
    assert f[..|f|] == f;
    EveryCharacter(step, src, dst, domain, cs, room');
  }

  /** Where the way back accepts at least the characters that the way there takes. */
  lemma RoundTripAccepted<A(!new), B(!new)>(
      step: Stepper<A, B>, back: Stepper<B, A>, src: bv32 -> seq<A>, dst: bv32 -> seq<B>,
      domain: bv32 -> bool, domain': bv32 -> bool, f: seq<A>, room: nat, room': nat)
    requires Bounded(step) && Translates(step, src, dst, domain)
    requires Bounded(back) && Accepts(back, dst, src, domain')
    requires forall c :: domain(c) ==> domain'(c)
    requires Convert(step, f, room).consumed <= room'
    ensures var r := Convert(step, f, room);
            Convert(back, r.out, room') == Outcome(Ok, |r.out|, f[..r.consumed])
  {
    var cs := OnlyWholeCharacters(step, src, dst, domain, f, room);
    forall i | 0 <= i < |cs| ensures domain'(cs[i]) {
      var c := cs[i];
      assert domain(c);
    }
    assert |Text(src, cs)| == |f[..Convert(step, f, room).consumed]|;
    AcceptedText(back, dst, src, domain', cs, room');
  }

  /**
   Round trip: whatever part of the input was converted, before any kind of stop,
   converting it back returns exactly that part.
   */
  lemma RoundTrip<A(!new), B(!new)>(
      step: Stepper<A, B>, back: Stepper<B, A>, src: bv32 -> seq<A>, dst: bv32 -> seq<B>,
      domain: bv32 -> bool, domain': bv32 -> bool, f: seq<A>, room: nat, room': nat)
    requires Bounded(step) && Translates(step, src, dst, domain)
    requires Bounded(back) && Translates(back, dst, src, domain')
    requires forall c :: domain(c) ==> domain'(c)
    requires Convert(step, f, room).consumed <= room'
    ensures var r := Convert(step, f, room);
            Convert(back, r.out, room') == Outcome(Ok, |r.out|, f[..r.consumed])
  {
    TranslatesAccepts(back, dst, src, domain');
    hide Bounded, Convert, Translates, Accepts;
    RoundTripAccepted(step, back, src, dst, domain, domain', f, room, room');
  }
}
