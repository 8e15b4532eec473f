/**
 What ConsumeGlob makes of a list of globs (clang-tidy's ClangTidyDiagnosticConsumer.cpp),
 and what is written there: they are the same unless a glob has too many blanks before it.
 */
module GlobItems {
  import opened CheckLists

  datatype Item = Item(positive: bool, glob: string)

  /** The items the code reads, one for each GlobList that it makes. */
  function Read(list: string): (items: seq<Item>)
    decreases |list|
  {
    var rest := Unsigned(list);
    [Item(!Negative(list), FirstGlob(rest))] + if Others(rest) == "" then [] else Read(Others(rest))
  }

  /** The parts of a list between the commas. */
  function Pieces(list: string): (pieces: seq<string>)
    decreases |list|
  {
    if list == "" then [] else [list[..CommaAt(list)]] + Pieces(From(list, CommaAt(list) + 1))
  }

  /** A glob without the blanks around it, after an optional minus. */
  function ItemOf(piece: string): (item: Item) { Item(!Negative(piece), Trim(Unsigned(piece))) }

  function ItemsOf(pieces: seq<string>): (items: seq<Item>) {
    if pieces == [] then [] else [ItemOf(pieces[0])] + ItemsOf(pieces[1..])
  }

  /** The items that are written. */
  function Written(list: string): (items: seq<Item>) { ItemsOf(Pieces(list)) }

  /** The items with a glob: an empty one matches no check. */
  function Solid(items: seq<Item>): (solid: seq<Item>) {
    if items == [] then [] else (if items[0].glob == "" then [] else [items[0]]) + Solid(items[1..])
  }

  /** There are blanks enough before the glob that its end, or all of it, is read once more as a glob. */
  predicate Misread(piece: string) {
    var rest := Unsigned(piece);
    Trim(rest) != "" && Blanks(rest) >= 2 && !(Blanks(rest) == 2 && Trim(rest)[|Trim(rest)| - 1] == '-')
  }

  /** No piece of the list is misread. */
  predicate Clean(list: string) {
    forall piece :: piece in Pieces(list) ==> !Misread(piece)
  }

  // -- blanks

  predicate AllBlank(s: string) {
    forall k :: 0 <= k < |s| ==> Blank(s[k])
  }

  lemma {:induction false} BlanksAt(s: string)
    ensures AllBlank(s[..Blanks(s)]) && (Blanks(s) < |s| ==> !Blank(s[Blanks(s)]))
    decreases |s|
  {
    if s != "" && Blank(s[0]) {
      BlanksAt(s[1..]);
      assert forall k :: 1 <= k < Blanks(s) ==> s[k] == s[1..][..Blanks(s[1..])][k - 1];
    }
  }

  lemma {:induction false} TrimRightParts(s: string)
    ensures TrimRight(s) <= s && AllBlank(s[|TrimRight(s)|..])
    ensures TrimRight(s) != "" ==> !Blank(TrimRight(s)[|TrimRight(s)| - 1])
    decreases |s|
  {
    if s != "" && Blank(s[|s| - 1]) {
      var init := s[..|s| - 1];
      TrimRightParts(init);
      assert s == init + [s[|s| - 1]];
    }
  }

  /** A trimmed string is between blanks, and has none at its ends. */
  lemma TrimParts(s: string)
    ensures var l, t := Blanks(s), Trim(s);
            && l + |t| <= |s| && s[l..l + |t|] == t && AllBlank(s[..l]) && AllBlank(s[l + |t|..])
            && (t != "" ==> !Blank(t[0]) && !Blank(t[|t| - 1]))
  {
    BlanksAt(s);
    TrimRightParts(s[Blanks(s)..]);
  }

  lemma TrimmedAway(s: string)
    ensures Trim(s) == "" <==> AllBlank(s)
  {
    TrimParts(s);
    if Trim(s) == "" {
      assert s == s[..Blanks(s)] + s[Blanks(s)..];
    }
  }

  // -- one piece

  /** Nothing is left to read: blanks, or a minus and blanks. */
  predicate Harmless(q: string) { AllBlank(Unsigned(q)) }

  lemma TailOfFew(rest: string)
    requires |Trim(rest)| < |rest| && (Trim(rest) == "" || Blanks(rest) <= 1)
    ensures AllBlank(rest[|Trim(rest)| + 1..])
  {
    var l, t := Blanks(rest), Trim(rest);
    TrimParts(rest);
    if t == "" {
      TrimmedAway(rest);
    } else {
      hide Blanks, Trim;
      var q := rest[|t| + 1..];
      assert forall k :: 0 <= k < |q| ==> q[k] == rest[l + |t|..][k + 1 - l];
    }
  }

  /** The last character of the glob is still there, with blanks behind it. */
  lemma TailOfMany(rest: string)
    requires Trim(rest) != "" && Blanks(rest) >= 2
    ensures var l, t, q := Blanks(rest), Trim(rest), rest[|Trim(rest)| + 1..];
            l - 2 < |q| && q[l - 2] == t[|t| - 1] && !Blank(q[l - 2]) && AllBlank(q[l - 1..])
  {
    var l, t := Blanks(rest), Trim(rest);
    TrimParts(rest);
    hide Blanks, Trim;
    var q := rest[|t| + 1..];
    assert q[l - 1..] == rest[l + |t|..];
  }

  /** What the code goes on with behind the glob of a piece is harmless unless the piece is misread. */
  lemma TailHarmless(piece: string)
    requires |Trim(Unsigned(piece))| < |Unsigned(piece)|
    ensures var rest := Unsigned(piece);
            Harmless(rest[|Trim(rest)| + 1..]) <==> !Misread(piece)
  {
    var rest := Unsigned(piece);
    var q := rest[|Trim(rest)| + 1..];
    if Trim(rest) == "" || Blanks(rest) <= 1 {
      TailOfFew(rest);
    } else {
      TailOfMany(rest);
      hide Blanks, Trim;
      if Blanks(rest) > 2 {
        var k := Blanks(rest) - 2;
        assert Unsigned(q)[if Negative(q) then k - 1 else k] == q[k];
      }
    }
  }

  // -- commas

  predicate CommaFree(s: string) {
    forall k :: 0 <= k < |s| ==> s[k] != ','
  }

  lemma {:induction false} CommaFound(s: string)
    ensures CommaFree(s[..CommaAt(s)]) && (CommaAt(s) < |s| ==> s[CommaAt(s)] == ',')
    decreases |s|
  {
    if s != "" && s[0] != ',' {
      CommaFound(s[1..]);
      assert forall k :: 1 <= k < CommaAt(s) ==> s[k] == s[1..][..CommaAt(s[1..])][k - 1];
    }
  }

  lemma {:induction false} CommaIsAt(s: string, k: nat)
    requires k <= |s| && (k < |s| ==> s[k] == ',')
    requires forall i :: 0 <= i < k ==> s[i] != ','
    ensures CommaAt(s) == k
    decreases |s|
  {
    if k > 0 {
      CommaIsAt(s[1..], k - 1);
    }
  }

  /** What follows a piece: the end of the list, or a comma and more pieces. */
  predicate Follows(suffix: string, more: string) {
    if suffix == "" then more == "" else suffix == "," + more
  }

  lemma CommaBehind(q: string, suffix: string, more: string)
    requires CommaFree(q) && Follows(suffix, more)
    ensures CommaAt(q + suffix) == |q| && (q + suffix)[..|q|] == q && From(q + suffix, |q| + 1) == more
  {
    var list := q + suffix;
    assert list[..|q|] == q && forall i :: 0 <= i < |q| ==> list[i] == q[i];
    CommaIsAt(list, |q|);
    if suffix != "" {
      assert list[|q| + 1..] == more;
    }
  }

  /** The first piece of a list, and what follows it. */
  lemma Cut(list: string) returns (piece: string, suffix: string, more: string)
    requires list != ""
    ensures list == piece + suffix && CommaFree(piece) && Follows(suffix, more) && |more| < |list|
    ensures Pieces(list) == [piece] + Pieces(more)
  {
    var k := CommaAt(list);
    CommaFound(list);
    piece, suffix, more := list[..k], list[k..], From(list, k + 1);
    if k < |list| {
      assert suffix == [list[k]] + list[k + 1..];
    }
  }

  /** The minus belongs to the first piece. */
  lemma CutUnsigned(piece: string, suffix: string, more: string)
    requires CommaFree(piece) && Follows(suffix, more)
    ensures Negative(piece + suffix) == Negative(piece) && Unsigned(piece + suffix) == Unsigned(piece) + suffix
    ensures CommaFree(Unsigned(piece))
  {
    if piece == "" {
      assert piece + suffix == suffix;
    } else if Negative(piece) {
      assert (piece + suffix)[1..] == piece[1..] + suffix;
    }
  }

  // -- one step of reading and of writing

  lemma {:induction false} SolidAppend(a: seq<Item>, b: seq<Item>)
    ensures Solid(a + b) == Solid(a) + Solid(b)
    decreases |a|
  {
    if a == [] {
      assert a + b == b;
    } else {
      assert (a + b)[1..] == a[1..] + b;
      SolidAppend(a[1..], b);
    }
  }

  lemma NothingRead()
    ensures Solid(Read("")) == []
  {
  }

  /** What the code goes on with behind the length of the first glob. */
  function Tail(rest: string, suffix: string, more: string): (tail: string) {
    if |Trim(rest)| == |rest| then more else rest[|Trim(rest)| + 1..] + suffix
  }

  lemma TailIsOthers(rest: string, suffix: string, more: string)
    requires CommaFree(rest) && Follows(suffix, more)
    ensures FirstGlob(rest + suffix) == Trim(rest) && Others(rest + suffix) == Tail(rest, suffix, more)
  {
    CommaBehind(rest, suffix, more);
    var n := |Trim(rest)| + 1;
    assert FirstGlob(rest + suffix) == Trim(rest);
    if n <= |rest| {
      assert (rest + suffix)[n..] == rest[n..] + suffix;
    }
  }

  lemma ReadStep(piece: string, suffix: string, more: string)
    requires CommaFree(piece) && Follows(suffix, more)
    ensures Solid(Read(piece + suffix)) ==
            Solid([ItemOf(piece)]) + Solid(Read(Tail(Unsigned(piece), suffix, more)))
  {
    CutUnsigned(piece, suffix, more);
    TailIsOthers(Unsigned(piece), suffix, more);
    hide CommaFree, Follows, Trim, Tail, FirstGlob, Others, Negative, Unsigned, Solid;
    var others := Others(Unsigned(piece) + suffix);
    NothingRead();
    SolidAppend([ItemOf(piece)], if others == "" then [] else Read(others));
  }

  lemma WrittenStep(piece: string, suffix: string, more: string)
    requires CommaFree(piece) && Follows(suffix, more)
    ensures Solid(Written(piece + suffix)) == Solid([ItemOf(piece)]) + Solid(Written(more))
  {
    CommaBehind(piece, suffix, more);
    if piece + suffix != "" {
      assert ([piece] + Pieces(more))[1..] == Pieces(more);
      SolidAppend([ItemOf(piece)], Written(more));
    }
  }

  // -- what is read and what is written

  lemma NoGlob(piece: string)
    requires AllBlank(Unsigned(piece))
    ensures Solid([ItemOf(piece)]) == []
  {
    TrimmedAway(Unsigned(piece));
  }

  lemma BlankTail(rest: string, suffix: string, more: string)
    requires AllBlank(rest) && CommaFree(rest)
    ensures Tail(rest, suffix, more) == if rest == "" then more else rest[1..] + suffix
    ensures rest != "" ==> AllBlank(rest[1..]) && CommaFree(rest[1..]) && Unsigned(rest[1..]) == rest[1..]
  {
    TrimmedAway(rest);
  }

  /** Blanks before a comma are read one by one, as items without a glob. */
  lemma {:induction false} SkipBlanks(q: string, suffix: string, more: string)
    requires Harmless(q) && CommaFree(q) && Follows(suffix, more)
    ensures Solid(Read(q + suffix)) == Solid(Read(more))
    decreases |q|
  {
    var rest := Unsigned(q);
    NoGlob(q);
    CutUnsigned(q, suffix, more);
    ReadStep(q, suffix, more);
    BlankTail(rest, suffix, more);
    hide Solid, Read, Tail, Unsigned, CommaFree, Follows, AllBlank, ItemOf;
    assert [] + Solid(Read(Tail(rest, suffix, more))) == Solid(Read(Tail(rest, suffix, more)));
    if rest != "" {
      SkipBlanks(rest[1..], suffix, more);
    }
  }

  /** Everything that is written is read. */
  lemma {:induction false} NoneMissed(list: string)
    ensures |Solid(Written(list))| <= |Solid(Read(list))|
    decreases |list|
  {
    if list != "" {
      var piece, suffix, more := Cut(list);
      var rest := Unsigned(piece);
      CutUnsigned(piece, suffix, more);
      ReadStep(piece, suffix, more);
      WrittenStep(piece, suffix, more);
      hide Solid, Written, Read, Trim, Follows, Negative;
      NoneMissed(Tail(rest, suffix, more));
      if |Trim(rest)| < |rest| {
        WrittenStep(rest[|Trim(rest)| + 1..], suffix, more);
      }
    }
  }

  /** What is left of a misread piece is one item too many. */
  lemma OneTooMany(q: string, suffix: string, more: string)
    requires !Harmless(q) && CommaFree(q) && Follows(suffix, more)
    ensures |Solid(Read(q + suffix))| > |Solid(Written(more))|
  {
    TrimmedAway(Unsigned(q));
    NoneMissed(q + suffix);
    WrittenStep(q, suffix, more);
    assert Solid([ItemOf(q)]) == [ItemOf(q)];
  }

  lemma CleanStep(list: string, piece: string, more: string)
    requires Pieces(list) == [piece] + Pieces(more)
    ensures Clean(list) <==> !Misread(piece) && Clean(more)
  {
    assert forall p :: p in Pieces(list) <==> p == piece || p in Pieces(more);
  }

  lemma NothingTrimmed(piece: string)
    requires |Trim(Unsigned(piece))| == |Unsigned(piece)|
    ensures !Misread(piece)
  {
    TrimParts(Unsigned(piece));
  }

  /** Behind a piece the code goes on with the next one, unless the piece is misread. */
  lemma AfterPiece(piece: string, suffix: string, more: string)
    requires CommaFree(piece) && Follows(suffix, more)
    ensures var tail := Solid(Read(Tail(Unsigned(piece), suffix, more)));
            if Misread(piece) then |tail| > |Solid(Written(more))| else tail == Solid(Read(more))
  {
    var rest := Unsigned(piece);
    CutUnsigned(piece, suffix, more);
    if |Trim(rest)| == |rest| {
      NothingTrimmed(piece);
      assert Tail(rest, suffix, more) == more;
      hide *;
    } else {
      var q := rest[|Trim(rest)| + 1..];
      assert CommaFree(q) && Tail(rest, suffix, more) == q + suffix;
      TailHarmless(piece);
      hide *;
      if Misread(piece) {
        OneTooMany(q, suffix, more);
      } else {
        SkipBlanks(q, suffix, more);
      }
    }
  }

  /** The items with a glob that are read are those that are written, if and only if no piece is misread. */
  lemma {:induction false} ReadAsWrittenExactly(list: string)
    ensures Solid(Read(list)) == Solid(Written(list)) <==> Clean(list)
    decreases |list|
  {
    if list == "" {
      NothingRead();
    } else {
      var piece, suffix, more := Cut(list);
      ReadStep(piece, suffix, more);
      WrittenStep(piece, suffix, more);
      CleanStep(list, piece, more);
      AfterPiece(piece, suffix, more);
      ReadAsWrittenExactly(more);
      hide *;
      SameRest(Solid([ItemOf(piece)]), Solid(Read(Tail(Unsigned(piece), suffix, more))), Solid(Written(more)));
    }
  }

  lemma SameRest(item: seq<Item>, a: seq<Item>, b: seq<Item>)
    ensures item + a == item + b <==> a == b
  {
    assert (item + a)[|item|..] == a && (item + b)[|item|..] == b;
  }

  // -- what a list enables

  /** The last item that matches decides. */
  function Decide(items: seq<Item>, name: string, contains: bool): (r: bool) {
    if items == [] then contains
    else Decide(items[1..], name, if Matches(items[0].glob, name) then items[0].positive else contains)
  }

  lemma {:induction false} ContainsDecides(list: string, name: string, contains: bool)
    ensures Contains(list, name, contains) == Decide(Read(list), name, contains)
    decreases |list|
  {
    var rest := Unsigned(list);
    var now := if Matches(FirstGlob(rest), name) then !Negative(list) else contains;
    assert Read(list)[1..] == if Others(rest) == "" then [] else Read(Others(rest));
    if Others(rest) != "" {
      ContainsDecides(Others(rest), name, now);
    }
  }

  lemma {:induction false} SolidDecides(items: seq<Item>, name: string, contains: bool)
    requires name != ""
    ensures Decide(items, name, contains) == Decide(Solid(items), name, contains)
    decreases |items|
  {
    if items != [] {
      var item := items[0];
      SolidDecides(items[1..], name, if Matches(item.glob, name) then item.positive else contains);
      if item.glob != "" {
        assert Solid(items) == [item] + Solid(items[1..]);
        assert ([item] + Solid(items[1..]))[1..] == Solid(items[1..]);
      } else {
        assert Solid(items) == [] + Solid(items[1..]) == Solid(items[1..]);
      }
    }
  }

  /** If no piece is misread, a list enables what is written in it. */
  lemma EnablesAsWritten(list: string, name: string, contains: bool)
    requires Clean(list) && name != ""
    ensures Contains(list, name, contains) == Decide(Written(list), name, contains)
  {
    ReadAsWrittenExactly(list);
    ContainsDecides(list, name, contains);
    SolidDecides(Read(list), name, contains);
    SolidDecides(Written(list), name, contains);
  }

  /** The name of a check, as one writes it: without commas, stars, blanks around it or a minus before it. */
  predicate IsName(n: string) {
    n != "" && CommaFree(n) && StarFree(n) && n[0] != '-' && !Blank(n[0]) && !Blank(n[|n| - 1])
  }

  lemma NameRead(n: string)
    requires IsName(n)
    ensures FirstGlob(n) == n && Others(n) == ""
  {
    CommaIsAt(n, |n|);
    assert n[..|n|] == n && n[0..] == n;
    assert Blanks(n) == 0 && Trim(n) == n;
  }

  /** A name enables the check, one behind a minus disables it, and neither does anything to other checks. */
  lemma NameAlone(n: string, name: string, contains: bool)
    requires IsName(n)
    ensures Contains(n, name, contains) == (name == n || contains)
    ensures Contains("-" + n, name, contains) == (name != n && contains)
  {
    NameRead(n);
    MatchesPrefix(n, "", name);
    assert n + "" == n && ("-" + n)[1..] == n;
    assert Matches(n, name) <==> name == n by {
      if n <= name && name[|n|..] == "" {
        assert name == n + name[|n|..];
      }
    }
    hide FirstGlob, Others, Matches;
  }

  /** Two blanks behind a minus: a list that disables a check enables it. */
  lemma MisreadExample()
    ensures Misread("-  a") && Contains("-  a", "a", false) && !Decide(Written("-  a"), "a", true)
  {
    var list, rest := "-  a", "  a";
    assert Unsigned(list) == rest && rest[2..] == "a" && rest[1..] == " a" && rest[1..][1..] == "a";
    assert Blanks("a") == 0 && Blanks(" a") == 1 && Blanks(rest) == 2;
    assert Trim(rest) == "a" && Trim("a") == "a";
    CommaIsAt(rest, 3);
    CommaIsAt(list, 4);
    CommaIsAt("a", 1);
    assert rest[..3] == rest && list[..4] == list && "a"[..1] == "a";
    assert FirstGlob(rest) == "a" && Others(rest) == "a" && FirstGlob("a") == "a" && Others("a") == "";
    hide FirstGlob, Others, CommaAt, Blanks, Trim, TrimRight;
    assert Matches("a", "a");
    assert Pieces(list) == [list];
  }
}
