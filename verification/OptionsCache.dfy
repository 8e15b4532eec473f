/**
 FileOptionsProvider (clang-tools-extra/clang-tidy/ClangTidyOptions.cpp): the lookup of
 options with a cache for every directory that has been passed.
 */
module OptionsCache {
  import opened Collections
  import opened TidyOptions

  class FileOptionsProvider {
    const setup: Setup
    var cachedOptions: map<Path, Options>
    ghost var tried: seq<Path>  // the directories whose configuration files were looked for, in order

    /**
     What is cached is right, "" is cached, and every directory that was tried is cached
     and was tried once.
     */
    ghost predicate Valid()
      reads this
    {
      && [] in cachedOptions
      && (forall p | p in cachedOptions :: cachedOptions[p] == OptionsOf(setup, p))
      && (forall i :: 0 <= i < |tried| ==> tried[i] in cachedOptions && tried[i] != [])
      && (forall i, j :: 0 <= i < j < |tried| ==> tried[i] != tried[j])
    }

    constructor (setup: Setup)
      ensures Valid() && this.setup == setup && cachedOptions.Keys == {[]} && tried == []
    {
      this.setup := setup;
      cachedOptions := map[[] := Merged(setup.defaults, setup.overrides)];
      tried := [];
    }

    /** TryReadConfigFile, which must not be asked about "". */
    method TryReadConfigFile(directory: Path) returns (r: Option<Options>)
      requires directory != []
      modifies this`tried
      ensures r == ConfigOf(setup, directory) && tried == old(tried) + [directory]
    {
      tried := tried + [directory];
      var fs, handlers := setup.fs, setup.handlers;
      if !fs.isDirectory(directory) {
        return None;
      }
      var i := 0;
      while i < |handlers|
        invariant 0 <= i <= |handlers| == |setup.handlers|
        invariant FirstConfig(fs, handlers, directory, 0) == FirstConfig(fs, handlers, directory, i)
      {
        var configFile := directory + [handlers[i].name];
        if fs.isRegularFile(configFile) {
          var text := fs.read(configFile);
          if text.Some? && text.value != "" {
            var parsedOptions := handlers[i].parse(text.value);
            if parsedOptions.Some? {
              var own := MergeWith(setup.defaults, parsedOptions.value);
              var all := MergeWith(own, setup.overrides);
              return Some(all);
            }
          }
        }
        i := i + 1;
      }
      r := None;
    }

    /** The first loop of getOptions: up from `path` to the first directory with a result. */
    method WalkUp(path: Path) returns (current: Path, r: Options)
      requires Valid()
      modifies this`tried
      ensures current <= path && forall p :: OnTheWay(p, path, |current|) ==> OptionsOf(setup, p) == r
      ensures Grown(old(tried), tried)
      ensures forall i :: |old(tried)| <= i < |tried| ==>
                tried[i] !in cachedOptions && tried[i] != [] && OnTheWay(tried[i], path, |current|)
    {
      current := path;
      assert path[..|path|] == path;
      while true
        invariant current <= path
        invariant forall p :: OnTheWay(p, path, |current|) ==> OptionsOf(setup, p) == OptionsOf(setup, current)
        invariant Grown(old(tried), tried)
        invariant forall i :: |old(tried)| <= i < |tried| ==>
                    tried[i] !in cachedOptions && tried[i] != [] && OnTheWay(tried[i], path, |current| + 1)
        decreases |current|
      {
        OneMore(path, current);
        if current in cachedOptions {
          return current, cachedOptions[current];
        }
        var result := TryReadConfigFile(current);
        if result.Some? {
          return current, result.value;
        }
        current := Parent(current);
        OneMore(path, current);
      }
    }

    /** The second loop: the result is cached for every directory from `path` up to `current`. */
    method CacheUpTo(path: Path, current: Path, result: Options)
      requires current <= path
      modifies this`cachedOptions
      ensures forall p :: p in cachedOptions <==> p in old(cachedOptions) || OnTheWay(p, path, |current|)
      ensures forall p | p in cachedOptions ::
                cachedOptions[p] == if OnTheWay(p, path, |current|) then result else old(cachedOptions[p])
    {
      var here := path;
      while here != current
        invariant current <= here <= path
        invariant forall p :: p in cachedOptions <==> p in old(cachedOptions) || OnTheWay(p, path, |here| + 1)
        invariant forall p | p in cachedOptions ::
                    cachedOptions[p] == if OnTheWay(p, path, |here| + 1) then result else old(cachedOptions[p])
        decreases |here|
      {
        OneMore(path, here);
        hide OnTheWay;
        cachedOptions := cachedOptions[here := result];
        here := Parent(here);
      }
      OneMore(path, here);
      hide OnTheWay;
      cachedOptions := cachedOptions[here := result];
    }

    /** getOptions: the options of the directory the file is in, as if there were no cache. */
    method GetOptions(fileName: Path) returns (r: Options)
      requires Valid()
      modifies this
      ensures Valid()
      ensures r == OptionsOf(setup, DirectoryOf(setup, fileName))
      ensures DirectoryOf(setup, fileName) in cachedOptions
      ensures forall p | p in old(cachedOptions) :: p in cachedOptions
      ensures |old(tried)| <= |tried| && forall i :: |old(tried)| <= i < |tried| ==> tried[i] !in old(cachedOptions)
    {
      var path := DirectoryOf(setup, fileName);
      var current;
      current, r := WalkUp(path);
      CacheUpTo(path, current, r);
      assert OnTheWay(path, path, |current|);
      hide OptionsOf, OnTheWay;
    }
  }

  /** Further directories were tried, none of them twice. */
  ghost predicate Grown(before: seq<Path>, after: seq<Path>) {
    && before <= after
    && forall i, j :: |before| <= i < j < |after| ==> after[i] != after[j]
  }

  /** The directory of a file; a name that cannot be made absolute is taken as it is. */
  function DirectoryOf(s: Setup, fileName: Path): (r: Path) {
    Parent(if s.fs.absolute(fileName).Some? then s.fs.absolute(fileName).value else fileName)
  }

  /** With the last part of its name, the directory of a file makes the absolute path of it, if there is one. */
  lemma DirectoryOfFile(s: Setup, fileName: Path)
    ensures var absolute := s.fs.absolute(fileName);
            && (absolute.Some? && absolute.value != [] ==>
                  absolute.value == DirectoryOf(s, fileName) + [absolute.value[|absolute.value| - 1]])
            && (absolute.None? && fileName != [] ==>
                  fileName == DirectoryOf(s, fileName) + [fileName[|fileName| - 1]])
  {
  }

  /** One of the directories from `path` up to its ancestor with `k` parts. */
  predicate OnTheWay(p: Path, path: Path, k: nat) {
    k <= |p| <= |path| && p == path[..|p|]
  }

  lemma OneMore(path: Path, here: Path)
    requires here <= path
    ensures forall p :: OnTheWay(p, path, |here|) <==> OnTheWay(p, path, |here| + 1) || p == here
    ensures here != [] ==> |Parent(here)| + 1 == |here|
    ensures !OnTheWay(path, path, |path| + 1)
  {
  }

  /** Any sequence of queries: no answer depends on the queries before it. */
  method AnswerAll(provider: FileOptionsProvider, fileNames: seq<Path>) returns (rs: seq<Options>)
    requires provider.Valid()
    modifies provider
    ensures provider.Valid() && |rs| == |fileNames|
    ensures forall i :: 0 <= i < |fileNames| ==>
              rs[i] == OptionsOf(provider.setup, DirectoryOf(provider.setup, fileNames[i]))
  {
    rs := [];
    while |rs| < |fileNames|
      invariant |rs| <= |fileNames| && provider.Valid()
      invariant forall i :: 0 <= i < |rs| ==>
                rs[i] == OptionsOf(provider.setup, DirectoryOf(provider.setup, fileNames[i]))
    {
      hide OptionsOf, DirectoryOf, FileOptionsProvider.Valid;
      var r := provider.GetOptions(fileNames[|rs|]);
      rs := rs + [r];
    }
  }
}
