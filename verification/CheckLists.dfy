/**
 GlobList (clang-tools-extra/clang-tidy/ClangTidyDiagnosticConsumer.cpp): which checks a
 list of globs enables, and what mergeWith means by joining two lists.
 */
module CheckLists {
  import opened Collections
  import opened TidyOptions

  predicate Blank(c: char) { c == ' ' || 9 <= c as int <= 13 }

  /** How many blanks a string starts with. */
  function Blanks(s: string): (n: nat)
    ensures n <= |s|
  {
    if s == "" || !Blank(s[0]) then 0 else 1 + Blanks(s[1..])
  }

  function TrimRight(s: string): (t: string)
    ensures |t| <= |s|
  {
    if s == "" || !Blank(s[|s| - 1]) then s else TrimRight(s[..|s| - 1])
  }

  function Trim(s: string): (t: string)
    ensures |t| <= |s|
  {
    TrimRight(s[Blanks(s)..])
  }

  /** The position of the first comma, or the length. */
  function CommaAt(s: string): (k: nat)
    ensures k <= |s|
  {
    if s == "" || s[0] == ',' then 0 else 1 + CommaAt(s[1..])
  }

  /** substr of a start that may lie behind the end. */
  function From(s: string, start: nat): (r: string) { if start <= |s| then s[start..] else "" }

  /** The regular expression of a glob: a star stands for anything. */
  predicate Matches(glob: string, s: string)
    decreases |glob| + |s|
  {
    if glob == "" then s == ""
    else if glob[0] == '*' then Matches(glob[1..], s) || (s != "" && Matches(glob, s[1..]))
    else s != "" && s[0] == glob[0] && Matches(glob[1..], s[1..])
  }

  predicate StarFree(glob: string) {
    forall k :: 0 <= k < |glob| ==> glob[k] != '*'
  }

  /** What is not a star stands for itself. */
  lemma {:induction false} MatchesPrefix(a: string, b: string, s: string)
    requires StarFree(a)
    ensures Matches(a + b, s) <==> a <= s && Matches(b, s[|a|..])
    decreases |a|
  {
    if a == "" {
      assert a + b == b && s[0..] == s;
    } else {
      assert (a + b)[1..] == a[1..] + b && (a + b)[0] == a[0] != '*';
      if s != "" && s[0] == a[0] {
        MatchesPrefix(a[1..], b, s[1..]);
        assert a <= s <==> a[1..] <= s[1..] by {
          assert a == [a[0]] + a[1..] && s == [s[0]] + s[1..];
        }
        if a <= s {
          assert s[1..][|a| - 1..] == s[|a|..];
        }
      }
    }
  }

  /** A star stands for anything. */
  lemma {:induction false} MatchesStar(b: string, s: string)
    ensures Matches("*" + b, s) <==> exists j :: 0 <= j <= |s| && Matches(b, s[j..])
    decreases |s|
  {
    var glob := "*" + b;
    assert glob[1..] == b && glob[0] == '*' && s[0..] == s;
    if s != "" {
      MatchesStar(b, s[1..]);
      forall j | 0 <= j < |s| ensures s[1..][j..] == s[j + 1..] {
      }
      if j :| 0 <= j <= |s| && Matches(b, s[j..]) {
        if j > 0 {
          assert s[1..][j - 1..] == s[j..];
        }
      }
      if j :| 0 <= j <= |s[1..]| && Matches(b, s[1..][j..]) {
        assert s[1..][j..] == s[j + 1..];
      }
    }
  }

  predicate Negative(list: string) { list != "" && list[0] == '-' }

  /** The list without a minus at its start. */
  function Unsigned(list: string): (rest: string)
    ensures |rest| <= |list|
  {
    if Negative(list) then list[1..] else list
  }

  function FirstGlob(rest: string): (r: string) { Trim(rest[..CommaAt(rest)]) }

  /** What follows the first glob, as ConsumeGlob finds it: by the length of the trimmed glob. */
  function Others(rest: string): (others: string)
    ensures |others| <= |rest| && (others != "" ==> |others| < |rest|)
  {
    From(rest, |FirstGlob(rest)| + 1)
  }

  /** GlobList::contains: the last glob that matches decides, or else `contains`. */
  function Contains(list: string, s: string, contains: bool): (r: bool)
    decreases |list|
  {
    var rest := Unsigned(list);
    var now := if Matches(FirstGlob(rest), s) then !Negative(list) else contains;
    if Others(rest) == "" then now else Contains(Others(rest), s, now)
  }

  // -- two lists

  lemma NothingEnabled(s: string, contains: bool)
    requires s != ""
    ensures Contains("", s, contains) == contains
  {
  }

  lemma CommaFirst(b: string, s: string, contains: bool)
    requires s != ""
    ensures Contains("," + b, s, contains) == Contains(b, s, contains)
  {
    var list := "," + b;
    assert CommaAt(list) == 0 && FirstGlob(list) == "";
    assert Others(list) == b;
    NothingEnabled(s, contains);
  }

  lemma {:induction false} CommaStays(rest: string, b: string)
    ensures CommaAt(rest + "," + b) == CommaAt(rest)
  {
    if rest == "" {
      assert rest + "," + b == "," + b;
    } else if rest[0] != ',' {
      assert (rest + "," + b)[1..] == rest[1..] + "," + b;
      CommaStays(rest[1..], b);
    }
  }

  /** The first glob is the same with another list behind it, and what follows it has that list behind it. */
  lemma FirstOfTwo(rest: string, b: string)
    ensures FirstGlob(rest + "," + b) == FirstGlob(rest)
    ensures Others(rest + "," + b) == if |FirstGlob(rest)| == |rest| then b else Others(rest) + "," + b
  {
    CommaStays(rest, b);
    var k := CommaAt(rest);
    assert (rest + "," + b)[..k] == rest[..k];
    var n := |FirstGlob(rest)| + 1;
    assert n <= k + 1 <= |rest| + 1;
    if n <= |rest| {
      assert (rest + "," + b)[n..] == rest[n..] + "," + b;
    } else {
      assert (rest + "," + b)[n..] == b;
    }
  }

  lemma {:induction false} TwoLists(a: string, b: string, s: string, contains: bool)
    requires a != "" && s != ""
    ensures Contains(a + "," + b, s, contains) == Contains(b, s, Contains(a, s, contains))
    decreases |a|
  {
    var list, rest := a + "," + b, Unsigned(a);
    assert Negative(list) == Negative(a) && Unsigned(list) == rest + "," + b;
    FirstOfTwo(rest, b);
    NothingEnabled(s, contains);
    var now := if Matches(FirstGlob(rest), s) then !Negative(a) else contains;
    NothingEnabled(s, now);
    hide Matches, FirstGlob, Unsigned, Negative;
    if Others(rest) != "" {
      TwoLists(Others(rest), b, s, now);
    } else {
      assert Others(rest) + "," + b == "," + b;
      CommaFirst(b, s, now);
    }
  }

  function JoinedList(a: string, b: string): (r: string) { Joined(Some(a), Some(b)).value }

  lemma JoinedLists(a: string, b: string, s: string, contains: bool)
    requires s != ""
    ensures Contains(JoinedList(a, b), s, contains) == Contains(b, s, Contains(a, s, contains))
  {
    NothingEnabled(s, contains);
    if a == "" {
      assert JoinedList(a, b) == b;
    } else {
      TwoLists(a, b, s, contains);
    }
  }

  /**
   Merged lists enable what the second enables on top of the first, for every name of a
   check; and for nothing else, for the empty name can match where the lists meet.
   */
  lemma JoinedListsExactly(s: string)
    ensures s != "" <==>
            forall a: string, b: string, contains: bool ::
              Contains(JoinedList(a, b), s, contains) == Contains(b, s, Contains(a, s, contains))
  {
    hide Contains, JoinedList;
    if s != "" {
      forall a: string, b: string, contains: bool
        ensures Contains(JoinedList(a, b), s, contains) == Contains(b, s, Contains(a, s, contains))
      {
        JoinedLists(a, b, s, contains);
      }
    } else {
      EmptyName();
    }
  }

  lemma EmptyName()
    ensures Contains(JoinedList("x,", "x"), "", false) != Contains("x", "", Contains("x,", "", false))
  {
    EmptyNameRead();
    hide Contains;
    assert JoinedList("x,", "x") == "x,,x";
  }

  lemma EmptyNameRead()
    ensures Contains("x,,x", "", false) && !Contains("x", "", Contains("x,", "", false))
  {
    hide *;
    ReadX("x", "", true);
    ReadX("x", "", false);
    ReadX("x,", "", false);
    assert "x,,x"[2..] == ",x" && ",x"[1..] == "x";
    ReadX("x,,x", ",x", false);
    ReadComma(",x", "x", false);
  }

  lemma ReadX(list: string, others: string, contains: bool)
    requires list != "" && list[0] == 'x' && (|list| > 1 ==> list[1] == ',')
    requires others == if |list| > 1 then list[2..] else ""
    ensures Contains(list, "", contains) == if others == "" then contains else Contains(others, "", contains)
  {
    assert CommaAt(list) == 1 && list[..1] == "x";
    assert Trim("x") == "x";
    assert FirstGlob(list) == "x" && Others(list) == others;
  }

  lemma ReadComma(list: string, others: string, contains: bool)
    requires list != "" && list[0] == ',' && others == list[1..] != ""
    ensures Contains(list, "", contains) == Contains(others, "", true)
  {
    assert CommaAt(list) == 0 && FirstGlob(list) == "";
    assert Others(list) == others;
  }
}
