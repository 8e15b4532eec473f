/**
 ClangTidyOptions::mergeWith and the options that a directory has, looked up without a
 cache (clang-tools-extra/clang-tidy/ClangTidyOptions.cpp).
 */
module TidyOptions {
  import opened Collections

  datatype Options = Options(
    checks: Option<string>,
    headerFilterRegex: Option<string>,
    systemHeaders: Option<bool>,
    analyzeTemporaryDtors: Option<bool>,
    user: Option<string>,
    checkOptions: map<string, string>,
    extraArgs: Option<seq<string>>,
    extraArgsBefore: Option<seq<string>>)

  const NO_OPTIONS := Options(None, None, None, None, None, map[], None, None)

  function Or<T>(a: Option<T>, b: Option<T>): (r: Option<T>) { if b.Some? then b else a }

  /** Glob lists are appended after a comma. */
  function Joined(a: Option<string>, b: Option<string>): (r: Option<string>) {
    if b.None? then a
    else Some((if a.Some? && a.value != "" then a.value + "," else "") + b.value)
  }

  function Merged(a: Options, b: Options): (r: Options) {
    Options(
      Joined(a.checks, b.checks),
      Or(a.headerFilterRegex, b.headerFilterRegex),
      Or(a.systemHeaders, b.systemHeaders),
      Or(a.analyzeTemporaryDtors, b.analyzeTemporaryDtors),
      Or(a.user, b.user),
      a.checkOptions + b.checkOptions,
      Or(a.extraArgs, b.extraArgs),
      Or(a.extraArgsBefore, b.extraArgsBefore))
  }

  /** In `r`, the value of `b` wins if it has one. */
  predicate Wins<T(==)>(a: Option<T>, b: Option<T>, r: Option<T>) {
    (b.Some? ==> r == b) && (b.None? ==> r == a)
  }

  /** The single-valued fields. */
  predicate LaterWins(a: Options, b: Options, r: Options) {
    && Wins(a.headerFilterRegex, b.headerFilterRegex, r.headerFilterRegex)
    && Wins(a.systemHeaders, b.systemHeaders, r.systemHeaders)
    && Wins(a.analyzeTemporaryDtors, b.analyzeTemporaryDtors, r.analyzeTemporaryDtors)
    && Wins(a.user, b.user, r.user)
    && Wins(a.extraArgs, b.extraArgs, r.extraArgs)
    && Wins(a.extraArgsBefore, b.extraArgsBefore, r.extraArgsBefore)
  }

  function CheckOption(a: Options, key: string): (r: Option<string>) {
    if key in a.checkOptions then Some(a.checkOptions[key]) else None
  }

  /** mergeWith, field by field as it is written; CheckLists says what a joined list means. */
  method MergeWith(a: Options, b: Options) returns (r: Options)
    ensures LaterWins(a, b, r) && r.checks == Joined(a.checks, b.checks)
    ensures forall key :: Wins(CheckOption(a, key), CheckOption(b, key), CheckOption(r, key))
    ensures r == Merged(a, b)
  {
    MergedFields(a, b);
    hide LaterWins, Wins, CheckOption;
    r := a;
    if b.checks.Some? {
      var before := if r.checks.Some? && r.checks.value != "" then r.checks.value + "," else "";
      r := r.(checks := Some(before + b.checks.value));
    }
    assert r == a.(checks := Joined(a.checks, b.checks));
    hide Joined;
    if b.headerFilterRegex.Some? { r := r.(headerFilterRegex := b.headerFilterRegex); }
    if b.systemHeaders.Some? { r := r.(systemHeaders := b.systemHeaders); }
    if b.analyzeTemporaryDtors.Some? { r := r.(analyzeTemporaryDtors := b.analyzeTemporaryDtors); }
    if b.user.Some? { r := r.(user := b.user); }
    if b.extraArgs.Some? { r := r.(extraArgs := b.extraArgs); }
    if b.extraArgsBefore.Some? { r := r.(extraArgsBefore := b.extraArgsBefore); }
    var checkOptions := MergeCheckOptions(r.checkOptions, b.checkOptions);
    r := r.(checkOptions := checkOptions);
  }

  lemma MergedFields(a: Options, b: Options)
    ensures LaterWins(a, b, Merged(a, b))
    ensures forall key :: Wins(CheckOption(a, key), CheckOption(b, key), CheckOption(Merged(a, b), key))
  {
    hide Joined;
  }

  /** The options merged when only `left` are to come. */
  ghost function MergedBut(a: map<string, string>, b: map<string, string>, left: set<string>)
    : (r: map<string, string>)
  {
    a + (b - left)
  }

  lemma MergedButNone(a: map<string, string>, b: map<string, string>)
    ensures MergedBut(a, b, b.Keys) == a && MergedBut(a, b, {}) == a + b
  {
    assert b - {} == b;
  }

  lemma MergedButStep(a: map<string, string>, b: map<string, string>, left: set<string>, key: string)
    requires left <= b.Keys && key in left
    ensures MergedBut(a, b, left)[key := b[key]] == MergedBut(a, b, left - {key})
  {
    assert (b - left)[key := b[key]] == b - (left - {key});
  }

  /** The last loop of mergeWith. */
  method MergeCheckOptions(a: map<string, string>, b: map<string, string>) returns (r: map<string, string>)
    ensures r == a + b
  {
    MergedButNone(a, b);
    hide MergedBut;
    r := a;
    var left := b.Keys;
    while left != {}
      invariant left <= b.Keys
      invariant r == MergedBut(a, b, left)
      decreases |left|
    {
      var key :| key in left;
      MergedButStep(a, b, left, key);
      r := r[key := b[key]];
      left := left - {key};
    }
  }

  /** The empty option set changes nothing, on either side. */
  lemma NothingToMerge(a: Options)
    ensures Merged(a, NO_OPTIONS) == a
    ensures Merged(NO_OPTIONS, a) == a
  {
    assert a.checkOptions + map[] == a.checkOptions == map[] + a.checkOptions;
    assert a.checks.Some? ==> "" + a.checks.value == a.checks.value;
  }

  /** The grouping of three option sets only matters for an empty list of checks between two others. */
  predicate GroupingMatters(a: Options, b: Options, c: Options) {
    a.checks.Some? && a.checks.value != "" && b.checks == Some("") && c.checks.Some?
  }

  lemma MergeGrouping(a: Options, b: Options, c: Options)
    ensures Merged(Merged(a, b), c) == Merged(a, Merged(b, c)) <==> !GroupingMatters(a, b, c)
  {
    ChecksGrouping(a.checks, b.checks, c.checks);
    assert (a.checkOptions + b.checkOptions) + c.checkOptions == a.checkOptions + (b.checkOptions + c.checkOptions);
    hide Joined;
  }

  lemma ChecksGrouping(a: Option<string>, b: Option<string>, c: Option<string>)
    ensures Joined(Joined(a, b), c) == Joined(a, Joined(b, c)) <==>
              !(a.Some? && a.value != "" && b == Some("") && c.Some?)
  {
    if a.Some? && a.value != "" && b.Some? && c.Some? {
      var x, y, z := a.value + ",", b.value, c.value;
      assert Joined(a, b) == Some(x + y) && |x + y| > 0;
      assert Joined(Joined(a, b), c) == Some(x + y + "," + z);
      if y == "" {
        EmptyBefore(z);
        assert Joined(a, Joined(b, c)) == Some(x + z);
        assert |x + y + "," + z| == |x + z| + 1;
      } else {
        assert Joined(a, Joined(b, c)) == Some(x + (y + "," + z));
        assert x + y + "," + z == x + (y + "," + z);
      }
    } else if b.Some? && c.Some? {
      EmptyBefore(b.value);
      assert Joined(a, b) == b;
      EmptyBefore(Joined(b, c).value);
      assert Joined(a, Joined(b, c)) == Joined(b, c);
    } else if c.Some? {
      EmptyBefore(c.value);
    }
  }

  lemma EmptyBefore(x: string)
    ensures "" + x == x
  {
  }

  // -- configuration files

  /** A path is the list of its parts; its parent has one part less, and no parts are "". */
  type Path = seq<string>

  function Parent(p: Path): (r: Path) { if p == [] then [] else p[..|p| - 1] }

  /** A configuration file name, and the parser for it. */
  datatype Handler = Handler(name: string, parse: string -> Option<Options>)

  /** What the provider asks of the file system, which does not change. */
  datatype FileSystem = FileSystem(
    absolute: Path -> Option<Path>,
    isDirectory: Path -> bool,
    isRegularFile: Path -> bool,
    read: Path -> Option<string>)

  /** What a handler makes of a directory: its file must be there, be readable, not be empty, and parse. */
  function Attempt(fs: FileSystem, handler: Handler, dir: Path): (r: Option<Options>) {
    var file := dir + [handler.name];
    if !fs.isRegularFile(file) || fs.read(file).None? || fs.read(file).value == "" then None
    else handler.parse(fs.read(file).value)
  }

  /** The result of the first handler, from number `i` on, that has one. */
  function FirstConfig(fs: FileSystem, handlers: seq<Handler>, dir: Path, i: nat): (r: Option<Options>)
    requires i <= |handlers|
    decreases |handlers| - i
  {
    if i == |handlers| then None
    else if Attempt(fs, handlers[i], dir).Some? then Attempt(fs, handlers[i], dir)
    else FirstConfig(fs, handlers, dir, i + 1)
  }

  /** The least handler that succeeds decides, and no other does. */
  lemma {:induction false} LeastHandlerDecides(fs: FileSystem, handlers: seq<Handler>, dir: Path, i: nat, k: nat)
    requires i <= k < |handlers| && Attempt(fs, handlers[k], dir).Some?
    requires forall j :: i <= j < k ==> Attempt(fs, handlers[j], dir).None?
    ensures FirstConfig(fs, handlers, dir, i) == Attempt(fs, handlers[k], dir)
    decreases k - i
  {
    if i < k {
      LeastHandlerDecides(fs, handlers, dir, i + 1, k);
    }
  }

  lemma {:induction false} NoHandlerDecides(fs: FileSystem, handlers: seq<Handler>, dir: Path, i: nat)
    requires i <= |handlers|
    ensures FirstConfig(fs, handlers, dir, i).None? <==>
            forall j :: i <= j < |handlers| ==> Attempt(fs, handlers[j], dir).None?
    decreases |handlers| - i
  {
    if i < |handlers| {
      NoHandlerDecides(fs, handlers, dir, i + 1);
    }
  }

  datatype Setup = Setup(fs: FileSystem, handlers: seq<Handler>, defaults: Options, overrides: Options)

  /** The options a directory's own configuration gives. */
  function ConfigOf(s: Setup, dir: Path): (r: Option<Options>) {
    if !s.fs.isDirectory(dir) then None
    else
      match FirstConfig(s.fs, s.handlers, dir, 0)
      case None => None
      case Some(parsed) => Some(Merged(Merged(s.defaults, parsed), s.overrides))
  }

  /** In `r`, the first of three values that is there. */
  predicate FirstSome<T(==)>(r: Option<T>, a: Option<T>, b: Option<T>, c: Option<T>) {
    (a.Some? ==> r == a) && (a.None? && b.Some? ==> r == b) && (a.None? && b.None? ==> r == c)
  }

  /** In every field and for every check option `high` wins over `middle`, and that over `low`. */
  ghost predicate Precedes(r: Options, high: Options, middle: Options, low: Options) {
    && FirstSome(r.headerFilterRegex, high.headerFilterRegex, middle.headerFilterRegex, low.headerFilterRegex)
    && FirstSome(r.systemHeaders, high.systemHeaders, middle.systemHeaders, low.systemHeaders)
    && FirstSome(r.analyzeTemporaryDtors, high.analyzeTemporaryDtors, middle.analyzeTemporaryDtors,
                 low.analyzeTemporaryDtors)
    && FirstSome(r.user, high.user, middle.user, low.user)
    && FirstSome(r.extraArgs, high.extraArgs, middle.extraArgs, low.extraArgs)
    && FirstSome(r.extraArgsBefore, high.extraArgsBefore, middle.extraArgsBefore, low.extraArgsBefore)
    && r.checks == Joined(Joined(low.checks, middle.checks), high.checks)
    && forall key :: FirstSome(CheckOption(r, key), CheckOption(high, key), CheckOption(middle, key),
                               CheckOption(low, key))
  }

  /**
   A directory has options of its own exactly if it is there and some handler succeeds; then
   the overriding options win over those of the least such handler, and these over the
   defaults.
   */
  lemma ConfigExactly(s: Setup, dir: Path)
    ensures ConfigOf(s, dir).Some? <==>
            s.fs.isDirectory(dir) && exists k :: 0 <= k < |s.handlers| && Attempt(s.fs, s.handlers[k], dir).Some?
    ensures forall k :: 0 <= k < |s.handlers| && s.fs.isDirectory(dir) && Attempt(s.fs, s.handlers[k], dir).Some? &&
                        (forall j :: 0 <= j < k ==> Attempt(s.fs, s.handlers[j], dir).None?) ==>
              ConfigOf(s, dir).Some? &&
              Precedes(ConfigOf(s, dir).value, s.overrides, Attempt(s.fs, s.handlers[k], dir).value, s.defaults)
  {
    NoHandlerDecides(s.fs, s.handlers, dir, 0);
    hide Attempt, Precedes, Merged;
    forall k | 0 <= k < |s.handlers| && s.fs.isDirectory(dir) && Attempt(s.fs, s.handlers[k], dir).Some? &&
               (forall j :: 0 <= j < k ==> Attempt(s.fs, s.handlers[j], dir).None?)
      ensures ConfigOf(s, dir).Some? &&
              Precedes(ConfigOf(s, dir).value, s.overrides, Attempt(s.fs, s.handlers[k], dir).value, s.defaults)
    {
      LeastHandlerDecides(s.fs, s.handlers, dir, 0, k);
      MergedPrecedes(s.overrides, Attempt(s.fs, s.handlers[k], dir).value, s.defaults);
    }
  }

  lemma MergedPrecedes(high: Options, middle: Options, low: Options)
    ensures Precedes(Merged(Merged(low, middle), high), high, middle, low)
  {
    hide Joined;
  }

  /** Without any configuration the overriding options win over the defaults. */
  lemma NoConfigOptions(s: Setup)
    ensures Precedes(OptionsOf(s, []), s.overrides, NO_OPTIONS, s.defaults)
  {
    MergedPrecedes(s.overrides, NO_OPTIONS, s.defaults);
    NothingToMerge(s.defaults);
    hide Precedes, Merged;
  }

  /** A handler succeeds exactly if its file is a regular one, can be read, is not empty, and parses. */
  lemma AttemptExactly(fs: FileSystem, handler: Handler, dir: Path, options: Options)
    ensures Attempt(fs, handler, dir) == Some(options) <==>
            var file := dir + [handler.name];
            && fs.isRegularFile(file) && fs.read(file).Some? && fs.read(file).value != ""
            && handler.parse(fs.read(file).value) == Some(options)
  {
  }

  /** The options of a directory, without a cache: its own, or else its parent's. */
  function OptionsOf(s: Setup, dir: Path): (r: Options) {
    if dir == [] then Merged(s.defaults, s.overrides)
    else
      match ConfigOf(s, dir)
      case Some(options) => options
      case None => OptionsOf(s, Parent(dir))
  }

  /** The ancestor of `dir` with `k` parts. */
  predicate IsNearest(s: Setup, dir: Path, k: nat)
    requires k <= |dir|
  {
    (0 < k ==> ConfigOf(s, dir[..k]).Some?) && forall j :: k < j <= |dir| ==> ConfigOf(s, dir[..j]).None?
  }

  /**
   The options of a directory are those of its nearest ancestor with a configuration, or
   the defaults where there is none; and there is just one nearest ancestor.
   */
  lemma {:induction false} NearestAncestor(s: Setup, dir: Path) returns (k: nat)
    ensures k <= |dir| && IsNearest(s, dir, k)
    ensures OptionsOf(s, dir) == if k == 0 then Merged(s.defaults, s.overrides) else ConfigOf(s, dir[..k]).value
    ensures forall k' :: 0 <= k' <= |dir| && IsNearest(s, dir, k') ==> k' == k
    decreases |dir|
  {
    hide ConfigOf, Merged;
    assert dir[..|dir|] == dir;
    if dir == [] {
      k := 0;
    } else if ConfigOf(s, dir).Some? {
      k := |dir|;
    } else {
      k := NearestAncestor(s, Parent(dir));
      forall j | 0 <= j < |dir| ensures dir[..j] == Parent(dir)[..j] {
      }
    }
  }
}
