/**
 * Layered configuration: the candidate file paths, and a `ConfigParser`
 * that loads a mandatory defaults file and then the existing override
 * files, lowest precedence first, so that the last value read for a
 * (section, option) pair wins.
 *
 * The file system is abstracted into three parameters: `isFile` (the
 * existence test on the user-expanded path), `resolve` (home expansion and
 * absolutisation) and `fs`, which tells what reading a resolved path
 * yields; a path missing from `fs` cannot be opened.
 */
module Config {
  import opened Wrappers

  /** The section ConfigParser uses for fallback values (`default_section`). */
  const DefaultSection := "general"

  /** `Path(parent) / Path(child)` for a parent and a relative child that are already normalised. */
  function PathJoin(parent: string, child: string): string {
    parent + "/" + child
  }

  /** Python truthiness of the optional `directory` argument. */
  predicate HasDirectory(directory: Option<string>) {
    directory.Some? && directory.value != ""
  }

  /**
   * `get_config_files`: one candidate path per location, in the order of
   * the locations, with the directory inserted only when it is given and
   * non-empty.
   */
  function GetConfigFiles(locations: seq<string>, name: string, directory: Option<string>): (paths: seq<string>)
    ensures |paths| == |locations|
    ensures HasDirectory(directory) ==>
      forall i :: 0 <= i < |locations| ==> paths[i] == locations[i] + "/" + directory.value + "/" + name
    ensures !HasDirectory(directory) ==>
      forall i :: 0 <= i < |locations| ==> paths[i] == locations[i] + "/" + name
  {
    if locations == [] then []
    else
      var first :=
        if HasDirectory(directory) then PathJoin(PathJoin(locations[0], directory.value), name)
        else PathJoin(locations[0], name);
      [first] + GetConfigFiles(locations[1..], name, directory)
  }

  /** A (section, option) pair. */
  type Key = (string, string)

  /** What parsing one INI file yields: its section headers and its values. */
  datatype IniFile = IniFile(headers: set<string>, entries: map<Key, string>)

  /** What reading a file that could be opened yields. */
  datatype Source = Parsed(ini: IniFile) | Malformed

  type FileSystem = map<string, Source>

  /**
   * The state of a ConfigParser: the non-default sections it knows, and
   * every value, those of the default section included.
   */
  datatype ParserState = ParserState(sections: set<string>, values: map<Key, string>)

  /** A loaded configuration and the override files it was read from (`config_sources`). */
  datatype Loaded = Loaded(state: ParserState, sources: seq<string>)

  datatype LoadError =
    | CannotOpenDefaults(path: string)
    | ParseError(path: string)

  /** The parser right after construction with the `defaults` dictionary. */
  function FromDefaults(defaults: map<string, string>, defaultSection: string): ParserState {
    ParserState({}, map option | option in defaults :: (defaultSection, option) := defaults[option])
  }

  /**
   * Reading one parsed file into the parser: its headers become sections
   * (the default section excepted) and each of its values overwrites the
   * one already there.
   */
  function ReadFileInto(st: ParserState, ini: IniFile, defaultSection: string): ParserState {
    ParserState(st.sections + (ini.headers - {defaultSection}), st.values + ini.entries)
  }

  /** `ConfigParser.read` for one path: skipped when it cannot be opened, fatal when malformed. */
  function ReadOne(before: Loaded, path: string, fs: FileSystem, defaultSection: string): Result<Loaded, LoadError> {
    if path !in fs then Success(before)
    else match fs[path]
      case Malformed => Failure(ParseError(path))
      case Parsed(ini) => Success(Loaded(ReadFileInto(before.state, ini, defaultSection), before.sources + [path]))
  }

  /** `ConfigParser.read` over a list of paths, in list order, stopping at the first malformed file. */
  function ReadAll(st: ParserState, paths: seq<string>, fs: FileSystem, defaultSection: string): Result<Loaded, LoadError>
    decreases |paths|
  {
    if paths == [] then Success(Loaded(st, []))
    else match ReadAll(st, paths[..|paths| - 1], fs, defaultSection)
      case Failure(e) => Failure(e)
      case Success(before) => ReadOne(before, paths[|paths| - 1], fs, defaultSection)
  }

  /** The resolved form of every configuration path that exists, in the given order. */
  function Existing(configFiles: seq<string>, isFile: string -> bool, resolve: string -> string): (paths: seq<string>)
    ensures |paths| <= |configFiles|
    ensures (forall p :: p in configFiles ==> !isFile(p)) ==> paths == []
  {
    if configFiles == [] then []
    else if isFile(configFiles[0]) then [resolve(configFiles[0])] + Existing(configFiles[1..], isFile, resolve)
    else Existing(configFiles[1..], isFile, resolve)
  }

  /** `list.reverse()`. */
  function Reverse<T>(s: seq<T>): (r: seq<T>)
    ensures |r| == |s|
    ensures forall i :: 0 <= i < |s| ==> r[i] == s[|s| - 1 - i]
  {
    if s == [] then [] else Reverse(s[1..]) + [s[0]]
  }

  /**
   * The parser before any override is read: the `defaults` dictionary,
   * or, when it is empty, the mandatory defaults file on top of it.
   */
  function Baseline(defaultsFile: string, defaults: map<string, string>, defaultSection: string,
                    resolve: string -> string, fs: FileSystem): (r: Result<ParserState, LoadError>)
    ensures r.Success? <==> defaults != map[] || (resolve(defaultsFile) in fs && fs[resolve(defaultsFile)].Parsed?)
    ensures r.Success? && defaults != map[] ==>
      && r.value.sections == {}
      && r.value.values.Keys == (set option | option in defaults :: (defaultSection, option))
      && forall option :: option in defaults ==> r.value.values[(defaultSection, option)] == defaults[option]
    ensures r.Success? && defaults == map[] ==>
      && r.value.sections == fs[resolve(defaultsFile)].ini.headers - {defaultSection}
      && r.value.values == fs[resolve(defaultsFile)].ini.entries
    ensures r.Failure? ==> r.error.path == resolve(defaultsFile)
  {
    var initial := FromDefaults(defaults, defaultSection);
    if defaults != map[] then Success(initial)
    else
      var path := resolve(defaultsFile);
      if path !in fs then Failure(CannotOpenDefaults(path))
      else match fs[path]
        case Malformed => Failure(ParseError(path))
        case Parsed(ini) => Success(ReadFileInto(initial, ini, defaultSection))
  }

  /** What `Config.__init__` builds, or the error it raises. */
  function Load(defaultsFile: string, defaults: map<string, string>, configFiles: seq<string>,
                defaultSection: string, isFile: string -> bool, resolve: string -> string,
                fs: FileSystem): Result<Loaded, LoadError>
  {
    match Baseline(defaultsFile, defaults, defaultSection, resolve, fs)
    case Failure(e) => Failure(e)
    case Success(base) => ReadAll(base, Reverse(Existing(configFiles, isFile, resolve)), fs, defaultSection)
  }

  /** The configuration file `p` exists, can be opened, parses, and sets `key`. */
  predicate Sets(p: string, key: Key, isFile: string -> bool, resolve: string -> string, fs: FileSystem) {
    isFile(p) && resolve(p) in fs && fs[resolve(p)].Parsed? && key in fs[resolve(p)].ini.entries
  }

  /** The value of `key` in the first of `configFiles` that sets it. */
  function Winner(configFiles: seq<string>, key: Key, isFile: string -> bool, resolve: string -> string,
                  fs: FileSystem): Option<string>
  {
    if configFiles == [] then None
    else if Sets(configFiles[0], key, isFile, resolve, fs) then Some(fs[resolve(configFiles[0])].ini.entries[key])
    else Winner(configFiles[1..], key, isFile, resolve, fs)
  }

  /** The existing file `p` can be opened and is malformed. */
  predicate Broken(p: string, isFile: string -> bool, resolve: string -> string, fs: FileSystem) {
    isFile(p) && resolve(p) in fs && fs[resolve(p)].Malformed?
  }

  /** Reading the reversed list of the files that exist: the step that adds the first file. */
  lemma ReadReversedStep(st: ParserState, x: string, rest: seq<string>, fs: FileSystem, defaultSection: string)
    ensures ReadAll(st, Reverse([x] + rest), fs, defaultSection) ==
      match ReadAll(st, Reverse(rest), fs, defaultSection)
      case Failure(e) => Failure(e)
      case Success(before) => ReadOne(before, x, fs, defaultSection)
  {
    var paths := Reverse([x] + rest);
    assert ([x] + rest)[1..] == rest;
    assert paths[..|paths| - 1] == Reverse(rest);
  }

  /**
   * Last-write-wins over the reversed list is first-file-wins over the
   * list as given: after reading the overrides, `key` has the value of the
   * first configuration file that sets it, or else its baseline value.
   */
  lemma {:induction false} ReadReversedFirstWins(base: ParserState, configFiles: seq<string>, key: Key,
                                                  defaultSection: string, isFile: string -> bool,
                                                  resolve: string -> string, fs: FileSystem)
    requires ReadAll(base, Reverse(Existing(configFiles, isFile, resolve)), fs, defaultSection).Success?
    ensures var values := ReadAll(base, Reverse(Existing(configFiles, isFile, resolve)), fs, defaultSection).value.state.values;
      match Winner(configFiles, key, isFile, resolve, fs)
      case Some(v) => key in values && values[key] == v
      case None => (key in values <==> key in base.values) && (key in values ==> values[key] == base.values[key])
    decreases |configFiles|
  {
    if configFiles != [] {
      var p, rest := configFiles[0], configFiles[1..];
      if isFile(p) {
        ReadReversedStep(base, resolve(p), Existing(rest, isFile, resolve), fs, defaultSection);
      }
      ReadReversedFirstWins(base, rest, key, defaultSection, isFile, resolve, fs);
    }
  }

  /**
   * The value read for a key comes from the earliest file in
   * `configFiles` that exists and sets it, whatever later files say.
   */
  lemma FirstExistingFileWins(defaultsFile: string, defaults: map<string, string>, configFiles: seq<string>,
                              defaultSection: string, isFile: string -> bool, resolve: string -> string,
                              fs: FileSystem, key: Key, i: nat)
    requires Load(defaultsFile, defaults, configFiles, defaultSection, isFile, resolve, fs).Success?
    requires i < |configFiles| && Sets(configFiles[i], key, isFile, resolve, fs)
    requires forall j :: 0 <= j < i ==> !Sets(configFiles[j], key, isFile, resolve, fs)
    ensures var values := Load(defaultsFile, defaults, configFiles, defaultSection, isFile, resolve, fs).value.state.values;
      key in values && values[key] == fs[resolve(configFiles[i])].ini.entries[key]
  {
    var base := Baseline(defaultsFile, defaults, defaultSection, resolve, fs).value;
    ReadReversedFirstWins(base, configFiles, key, defaultSection, isFile, resolve, fs);
    WinnerIsFirst(configFiles, key, isFile, resolve, fs, i);
  }

  /** `Winner` picks the file at the first index that sets the key. */
  lemma {:induction false} WinnerIsFirst(configFiles: seq<string>, key: Key, isFile: string -> bool,
                                         resolve: string -> string, fs: FileSystem, i: nat)
    requires i < |configFiles| && Sets(configFiles[i], key, isFile, resolve, fs)
    requires forall j :: 0 <= j < i ==> !Sets(configFiles[j], key, isFile, resolve, fs)
    ensures Winner(configFiles, key, isFile, resolve, fs) == Some(fs[resolve(configFiles[i])].ini.entries[key])
    decreases i
  {
    if i > 0 {
      WinnerIsFirst(configFiles[1..], key, isFile, resolve, fs, i - 1);
    }
  }

  /** `Winner` finds nothing when no file sets the key. */
  lemma {:induction false} WinnerNone(configFiles: seq<string>, key: Key, isFile: string -> bool,
                                      resolve: string -> string, fs: FileSystem)
    requires forall j :: 0 <= j < |configFiles| ==> !Sets(configFiles[j], key, isFile, resolve, fs)
    ensures Winner(configFiles, key, isFile, resolve, fs) == None
    decreases |configFiles|
  {
    if configFiles != [] {
      WinnerNone(configFiles[1..], key, isFile, resolve, fs);
    }
  }

  /**
   * A key that no existing override file sets keeps the value the
   * defaults gave it (and stays unset if they did not set it).
   */
  lemma DefaultValueKept(defaultsFile: string, defaults: map<string, string>, configFiles: seq<string>,
                         defaultSection: string, isFile: string -> bool, resolve: string -> string,
                         fs: FileSystem, key: Key)
    requires Load(defaultsFile, defaults, configFiles, defaultSection, isFile, resolve, fs).Success?
    requires forall j :: 0 <= j < |configFiles| ==> !Sets(configFiles[j], key, isFile, resolve, fs)
    ensures Baseline(defaultsFile, defaults, defaultSection, resolve, fs).Success?
    ensures var base := Baseline(defaultsFile, defaults, defaultSection, resolve, fs).value.values;
      var values := Load(defaultsFile, defaults, configFiles, defaultSection, isFile, resolve, fs).value.state.values;
      (key in values <==> key in base) && (key in values ==> values[key] == base[key])
  {
    var base := Baseline(defaultsFile, defaults, defaultSection, resolve, fs).value;
    ReadReversedFirstWins(base, configFiles, key, defaultSection, isFile, resolve, fs);
    WinnerNone(configFiles, key, isFile, resolve, fs);
  }

  /**
   * With no defaults dictionary, a key set in the defaults file and in no
   * override file keeps the defaults file's value.
   */
  lemma DefaultsFileValueKept(defaultsFile: string, configFiles: seq<string>, defaultSection: string,
                              isFile: string -> bool, resolve: string -> string, fs: FileSystem, key: Key)
    requires Load(defaultsFile, map[], configFiles, defaultSection, isFile, resolve, fs).Success?
    requires resolve(defaultsFile) in fs && fs[resolve(defaultsFile)].Parsed?
    requires key in fs[resolve(defaultsFile)].ini.entries
    requires forall j :: 0 <= j < |configFiles| ==> !Sets(configFiles[j], key, isFile, resolve, fs)
    ensures var values := Load(defaultsFile, map[], configFiles, defaultSection, isFile, resolve, fs).value.state.values;
      key in values && values[key] == fs[resolve(defaultsFile)].ini.entries[key]
  {
    DefaultValueKept(defaultsFile, map[], configFiles, defaultSection, isFile, resolve, fs, key);
  }

  /** Leaving out a path that does not exist changes nothing. */
  lemma {:induction false} ExistingSkipsMissing(configFiles: seq<string>, i: nat, isFile: string -> bool,
                                                resolve: string -> string)
    requires i < |configFiles| && !isFile(configFiles[i])
    ensures Existing(configFiles[..i] + configFiles[i + 1..], isFile, resolve) == Existing(configFiles, isFile, resolve)
    decreases i
  {
    var without := configFiles[..i] + configFiles[i + 1..];
    if i == 0 {
      assert without == configFiles[1..];
    } else {
      ExistingSkipsMissing(configFiles[1..], i - 1, isFile, resolve);
      assert without[0] == configFiles[0];
      assert without[1..] == configFiles[1..][..i - 1] + configFiles[1..][i..];
    }
  }

  /** A configuration file that does not exist is silently skipped. */
  lemma MissingFileSkipped(defaultsFile: string, defaults: map<string, string>, configFiles: seq<string>,
                           defaultSection: string, isFile: string -> bool, resolve: string -> string,
                           fs: FileSystem, i: nat)
    requires i < |configFiles| && !isFile(configFiles[i])
    ensures Load(defaultsFile, defaults, configFiles[..i] + configFiles[i + 1..], defaultSection, isFile, resolve, fs)
         == Load(defaultsFile, defaults, configFiles, defaultSection, isFile, resolve, fs)
  {
    ExistingSkipsMissing(configFiles, i, isFile, resolve);
  }

  /**
   * Reading the overrides fails exactly when one of the existing files
   * can be opened but does not parse.
   */
  lemma {:induction false} ReadReversedSucceeds(base: ParserState, configFiles: seq<string>, defaultSection: string,
                                                 isFile: string -> bool, resolve: string -> string, fs: FileSystem)
    ensures ReadAll(base, Reverse(Existing(configFiles, isFile, resolve)), fs, defaultSection).Success?
        <==> forall j :: 0 <= j < |configFiles| ==> !Broken(configFiles[j], isFile, resolve, fs)
    decreases |configFiles|
  {
    if configFiles != [] {
      var p, rest := configFiles[0], configFiles[1..];
      ReadReversedSucceeds(base, rest, defaultSection, isFile, resolve, fs);
      if isFile(p) {
        ReadReversedStep(base, resolve(p), Existing(rest, isFile, resolve), fs, defaultSection);
      }
      assert forall j :: 1 <= j < |configFiles| ==> configFiles[j] == rest[j - 1];
    }
  }

  /**
   * `Config.__init__` raises exactly when the defaults file is needed and
   * cannot be opened or parsed, or an existing override file is malformed;
   * an override that cannot be opened is no error.
   */
  lemma LoadSucceeds(defaultsFile: string, defaults: map<string, string>, configFiles: seq<string>,
                     defaultSection: string, isFile: string -> bool, resolve: string -> string, fs: FileSystem)
    ensures Load(defaultsFile, defaults, configFiles, defaultSection, isFile, resolve, fs).Success?
        <==> && (defaults == map[] ==> resolve(defaultsFile) in fs && fs[resolve(defaultsFile)].Parsed?)
             && forall j :: 0 <= j < |configFiles| ==> !Broken(configFiles[j], isFile, resolve, fs)
  {
    match Baseline(defaultsFile, defaults, defaultSection, resolve, fs)
    case Failure(_) =>
    case Success(base) => ReadReversedSucceeds(base, configFiles, defaultSection, isFile, resolve, fs);
  }

  /** Reading more files never forgets a section or a value. */
  lemma {:induction false} ReadAllKeeps(st: ParserState, paths: seq<string>, fs: FileSystem, defaultSection: string)
    requires ReadAll(st, paths, fs, defaultSection).Success?
    ensures st.sections <= ReadAll(st, paths, fs, defaultSection).value.state.sections
    ensures st.values.Keys <= ReadAll(st, paths, fs, defaultSection).value.state.values.Keys
    decreases |paths|
  {
    if paths != [] {
      ReadAllKeeps(st, paths[..|paths| - 1], fs, defaultSection);
    }
  }

  /** Why `ConfigParser.get` fails. */
  datatype LookupError = NoSection(section: string) | NoOption(section: string, option: string)

  /**
   * `ConfigParser.get(section, option)`: an unknown section other than the
   * default one is an error; otherwise the section's own value, falling
   * back to the default section's, or an error when neither has one.
   */
  function Lookup(st: ParserState, defaultSection: string, section: string, option: string): (r: Result<string, LookupError>)
    ensures r == Failure(NoSection(section)) <==> section != defaultSection && section !in st.sections
    ensures r.Success? && (section, option) in st.values ==> r.value == st.values[(section, option)]
    ensures r.Success? && (section, option) !in st.values ==>
      (defaultSection, option) in st.values && r.value == st.values[(defaultSection, option)]
    ensures r.Failure? && (section == defaultSection || section in st.sections) ==>
      r.error == NoOption(section, option) && (section, option) !in st.values && (defaultSection, option) !in st.values
  {
    if section != defaultSection && section !in st.sections then Failure(NoSection(section))
    else if (section, option) in st.values then Success(st.values[(section, option)])
    else if (defaultSection, option) in st.values then Success(st.values[(defaultSection, option)])
    else Failure(NoOption(section, option))
  }

  /** A file as ConfigParser parses it: every value sits under one of the file's section headers. */
  predicate WellFormed(ini: IniFile) {
    forall key :: key in ini.entries ==> key.0 in ini.headers
  }

  /** A configuration path that exists is among the resolved existing paths. */
  lemma {:induction false} ExistingHas(configFiles: seq<string>, i: nat, isFile: string -> bool, resolve: string -> string)
    requires i < |configFiles| && isFile(configFiles[i])
    ensures resolve(configFiles[i]) in Existing(configFiles, isFile, resolve)
    decreases i
  {
    if i > 0 {
      ExistingHas(configFiles[1..], i - 1, isFile, resolve);
    }
  }

  /** Every parsed file that was read contributes its headers (the default one excepted) as sections. */
  lemma {:induction false} ReadAllSections(st: ParserState, paths: seq<string>, fs: FileSystem, defaultSection: string, k: nat)
    requires ReadAll(st, paths, fs, defaultSection).Success?
    requires k < |paths| && paths[k] in fs && fs[paths[k]].Parsed?
    ensures fs[paths[k]].ini.headers - {defaultSection} <= ReadAll(st, paths, fs, defaultSection).value.state.sections
    decreases |paths|
  {
    var prefix := paths[..|paths| - 1];
    if k < |paths| - 1 {
      ReadAllSections(st, prefix, fs, defaultSection, k);
      assert prefix[k] == paths[k];
    }
  }

  /**
   * `cfg.get(section, option)` after loading answers with the value of the
   * earliest existing configuration file that sets the option in that
   * section, when that file is well formed.
   */
  lemma LoadedLookup(defaultsFile: string, defaults: map<string, string>, configFiles: seq<string>,
                     defaultSection: string, isFile: string -> bool, resolve: string -> string,
                     fs: FileSystem, key: Key, i: nat)
    requires Load(defaultsFile, defaults, configFiles, defaultSection, isFile, resolve, fs).Success?
    requires i < |configFiles| && Sets(configFiles[i], key, isFile, resolve, fs)
    requires forall j :: 0 <= j < i ==> !Sets(configFiles[j], key, isFile, resolve, fs)
    requires WellFormed(fs[resolve(configFiles[i])].ini)
    ensures var st := Load(defaultsFile, defaults, configFiles, defaultSection, isFile, resolve, fs).value.state;
      Lookup(st, defaultSection, key.0, key.1) == Success(fs[resolve(configFiles[i])].ini.entries[key])
  {
    FirstExistingFileWins(defaultsFile, defaults, configFiles, defaultSection, isFile, resolve, fs, key, i);
    var p := resolve(configFiles[i]);
    var existing := Existing(configFiles, isFile, resolve);
    ExistingHas(configFiles, i, isFile, resolve);
    var k :| 0 <= k < |existing| && existing[k] == p;
    var paths := Reverse(existing);
    assert paths[|existing| - 1 - k] == p;
    var base := Baseline(defaultsFile, defaults, defaultSection, resolve, fs).value;
    ReadAllSections(base, paths, fs, defaultSection, |existing| - 1 - k);
  }

  /**
   * The object built by `Config.__init__`: a ConfigParser's sections and
   * values plus the list of override files actually read.
   */
  class Config {
    const defaultSection: string
    var sections: set<string>
    var values: map<Key, string>
    var configSources: seq<string>

    function State(): ParserState
      reads this
    {
      ParserState(sections, values)
    }

    /** `ConfigParser.__init__(defaults=…, default_section=…)`. */
    constructor (defaults: map<string, string>, defaultSection: string)
      ensures this.defaultSection == defaultSection
      ensures State() == FromDefaults(defaults, defaultSection)
      ensures configSources == []
    {
      this.defaultSection := defaultSection;
      var initial := FromDefaults(defaults, defaultSection);
      sections := initial.sections;
      values := initial.values;
      configSources := [];
    }

    /** `ConfigParser.read_file` of a file that parsed. */
    method ReadFile(ini: IniFile)
      modifies this
      ensures State() == ReadFileInto(old(State()), ini, defaultSection)
      ensures configSources == old(configSources)
    {
      sections := sections + (ini.headers - {defaultSection});
      values := values + ini.entries;
    }

    /**
     * `ConfigParser.read(paths)`: reads each path in order, skips those
     * that cannot be opened, raises on the first malformed one, and
     * returns the paths it read.
     */
    method Read(paths: seq<string>, fs: FileSystem) returns (outcome: Result<seq<string>, LoadError>)
      modifies this
      ensures outcome.Success? <==> ReadAll(old(State()), paths, fs, defaultSection).Success?
      ensures outcome.Success? ==> ReadAll(old(State()), paths, fs, defaultSection).value == Loaded(State(), outcome.value)
      ensures outcome.Failure? ==> outcome.error == ReadAll(old(State()), paths, fs, defaultSection).error
      ensures configSources == old(configSources)
    {
      ghost var start := State();
      var readOk := [];
      var i := 0;
      while i < |paths|
        invariant 0 <= i <= |paths|
        invariant ReadAll(start, paths[..i], fs, defaultSection) == Success(Loaded(State(), readOk))
        invariant configSources == old(configSources)
      {
        var path := paths[i];
        assert paths[..i + 1][..i] == paths[..i];
        if path in fs {
          match fs[path]
          case Malformed =>
            ReadAllStopsAtFailure(start, paths, i + 1, fs, defaultSection);
            return Failure(ParseError(path));
          case Parsed(ini) =>
            ReadFile(ini);
            readOk := readOk + [path];
        }
        i := i + 1;
      }
      assert paths[..i] == paths;
      outcome := Success(readOk);
    }

    /**
     * `Config.__init__`: the defaults file unless a `defaults` dictionary is
     * given, then the existing configuration files in reverse order.
     */
    static method New(defaultsFile: string, defaults: map<string, string>, configFiles: seq<string>,
                      defaultSection: string, isFile: string -> bool, resolve: string -> string,
                      fs: FileSystem) returns (r: Result<Config, LoadError>)
      ensures r.Failure? <==> Load(defaultsFile, defaults, configFiles, defaultSection, isFile, resolve, fs).Failure?
      ensures r.Failure? ==> r.error == Load(defaultsFile, defaults, configFiles, defaultSection, isFile, resolve, fs).error
      ensures r.Success? ==> && fresh(r.value)
                             && r.value.defaultSection == defaultSection
                             && Loaded(r.value.State(), r.value.configSources)
                                == Load(defaultsFile, defaults, configFiles, defaultSection, isFile, resolve, fs).value
    {
      var c := new Config(defaults, defaultSection);
      if defaults == map[] {
        var path := resolve(defaultsFile);
        if path !in fs {
          return Failure(CannotOpenDefaults(path));
        }
        match fs[path]
        case Malformed =>
          return Failure(ParseError(path));
        case Parsed(ini) =>
          c.ReadFile(ini);
      }
      assert Baseline(defaultsFile, defaults, defaultSection, resolve, fs) == Success(c.State());
      var resolved := Existing(configFiles, isFile, resolve);
      resolved := Reverse(resolved);
      var outcome := c.Read(resolved, fs);
      if outcome.Failure? {
        return Failure(outcome.error);
      }
      c.configSources := outcome.value;
      r := Success(c);
    }
  }

  /** Once reading a prefix of the paths has failed, reading all of them fails the same way. */
  lemma {:induction false} ReadAllStopsAtFailure(st: ParserState, paths: seq<string>, n: nat, fs: FileSystem,
                                                 defaultSection: string)
    requires n <= |paths| && ReadAll(st, paths[..n], fs, defaultSection).Failure?
    ensures ReadAll(st, paths, fs, defaultSection) == ReadAll(st, paths[..n], fs, defaultSection)
    decreases |paths| - n
  {
    if n < |paths| {
      var longer := paths[..n + 1];
      assert longer[..n] == paths[..n];
      ReadAllStopsAtFailure(st, paths, n + 1, fs, defaultSection);
    } else {
      assert paths[..n] == paths;
    }
  }

  /** The defaults file of the `test_config` scenario. */
  const TestDefaults := IniFile({"odoo"}, map[("odoo", "default") := "value", ("odoo", "item") := "val", ("odoo", "foo") := "bar"])
  /** The two override files of the `test_config` scenario, highest precedence first. */
  const TestOne := IniFile({"odoo"}, map[("odoo", "item") := "value", ("odoo", "foo") := "one"])
  const TestTwo := IniFile({"odoo"}, map[("odoo", "foo") := "two"])

  /** What the file system of the `test_config` scenario holds. */
  predicate TestFiles(defaultsFile: string, one: string, two: string, wrong: string,
                      isFile: string -> bool, resolve: string -> string, fs: FileSystem)
  {
    && isFile(one) && isFile(two) && !isFile(wrong)
    && resolve(defaultsFile) in fs && fs[resolve(defaultsFile)] == Parsed(TestDefaults)
    && resolve(one) in fs && fs[resolve(one)] == Parsed(TestOne)
    && resolve(two) in fs && fs[resolve(two)] == Parsed(TestTwo)
  }

  /**
   * The `test_config` scenario: a defaults file and the overrides `one`,
   * `two` and a `wrong` one that does not exist. Loading succeeds; `default`
   * comes from the defaults file, `item` and `foo` from `one`.
   */
  lemma TestConfigScenario(defaultsFile: string, one: string, two: string, wrong: string,
                           isFile: string -> bool, resolve: string -> string, fs: FileSystem)
    requires TestFiles(defaultsFile, one, two, wrong, isFile, resolve, fs)
    ensures var r := Load(defaultsFile, map[], [one, two, wrong], DefaultSection, isFile, resolve, fs);
      && r.Success?
      && Lookup(r.value.state, DefaultSection, "odoo", "default") == Success("value")
      && Lookup(r.value.state, DefaultSection, "odoo", "item") == Success("value")
      && Lookup(r.value.state, DefaultSection, "odoo", "foo") == Success("one")
  {
    var files := [one, two, wrong];
    TestScenarioFiles(defaultsFile, one, two, wrong, isFile, resolve, fs);
    TestScenarioLoads(defaultsFile, one, two, wrong, isFile, resolve, fs);
    FirstExistingFileWins(defaultsFile, map[], files, DefaultSection, isFile, resolve, fs, ("odoo", "item"), 0);
    FirstExistingFileWins(defaultsFile, map[], files, DefaultSection, isFile, resolve, fs, ("odoo", "foo"), 0);
    DefaultValueKept(defaultsFile, map[], files, DefaultSection, isFile, resolve, fs, ("odoo", "default"));
  }

  /** In the scenario no override file is malformed and none sets `default`. */
  lemma TestScenarioFiles(defaultsFile: string, one: string, two: string, wrong: string,
                          isFile: string -> bool, resolve: string -> string, fs: FileSystem)
    requires TestFiles(defaultsFile, one, two, wrong, isFile, resolve, fs)
    ensures var files := [one, two, wrong];
      forall j :: 0 <= j < |files| ==>
        !Broken(files[j], isFile, resolve, fs) && !Sets(files[j], ("odoo", "default"), isFile, resolve, fs)
  {
    var files := [one, two, wrong];
    TestOverridesLackDefault();
    forall j | 0 <= j < |files|
      ensures !Broken(files[j], isFile, resolve, fs) && !Sets(files[j], ("odoo", "default"), isFile, resolve, fs)
    {
      assert j == 0 || j == 1 || j == 2;
      if j == 0 {
        assert files[j] == one;
      } else if j == 1 {
        assert files[j] == two;
      } else {
        assert files[j] == wrong;
      }
    }
  }

  /** In the scenario loading succeeds and knows the section `odoo`. */
  lemma TestScenarioLoads(defaultsFile: string, one: string, two: string, wrong: string,
                          isFile: string -> bool, resolve: string -> string, fs: FileSystem)
    requires TestFiles(defaultsFile, one, two, wrong, isFile, resolve, fs)
    ensures var r := Load(defaultsFile, map[], [one, two, wrong], DefaultSection, isFile, resolve, fs);
      r.Success? && "odoo" in r.value.state.sections
  {
    var files := [one, two, wrong];
    TestScenarioFiles(defaultsFile, one, two, wrong, isFile, resolve, fs);
    LoadSucceeds(defaultsFile, map[], files, DefaultSection, isFile, resolve, fs);
    var base := Baseline(defaultsFile, map[], DefaultSection, resolve, fs).value;
    assert "odoo" in base.sections;
    ReadAllKeeps(base, Reverse(Existing(files, isFile, resolve)), fs, DefaultSection);
  }

  lemma TestOverridesLackDefault()
    ensures ("odoo", "default") !in TestOne.entries && ("odoo", "default") !in TestTwo.entries
  {
    assert "default" != "item" && "default" != "foo" by {
      assert |"default"| == 7;
    }
  }
}
