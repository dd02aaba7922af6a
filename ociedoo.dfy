/**
 * The ociedoo command: the configuration search path, the target
 * databases, the service check, the Odoo command line for one database,
 * and the loop that runs `odoo --stop-after-init` once per database.
 *
 * The external commands are inputs: the grep-filtered `psql -l` output,
 * the `systemctl show --property ActiveState` output, whether the Odoo
 * binary was found, and how each launched child ends.
 */
module Ociedoo {
  import opened Wrappers
  import opened Text
  import Config

  /** `PGRNAME`, and the configuration file name derived from it. */
  const ProgramName := "ociedoo"
  const RcName := ProgramName + "rc"

  /** The environment values read at start-up; `None` is an unset variable. */
  datatype Environment = Environment(
    home: string,
    xdgConfigHome: Option<string>,
    xdgConfigDirs: Option<string>,
    ociedooConf: Option<string>)

  /** `XDG_CONFIG_HOME`, by default `~/.config` under the home directory. */
  function ConfigHome(env: Environment): string {
    env.xdgConfigHome.GetOr(Config.PathJoin(env.home, ".config"))
  }

  /** `XDG_CONFIG_DIRS` (by default `/etc/xdg`) split on colons. */
  function ConfigDirs(env: Environment): (dirs: seq<string>)
    ensures |dirs| >= 1
    ensures forall i :: 0 <= i < |dirs| ==> ':' !in dirs[i]
    ensures Join(dirs, ':') == env.xdgConfigDirs.GetOr("/etc/xdg")
    ensures env.xdgConfigDirs.None? ==> dirs == ["/etc/xdg"]
  {
    var dirs := Split(env.xdgConfigDirs.GetOr("/etc/xdg"), ':');
    assert env.xdgConfigDirs.None? ==> dirs == ["/etc/xdg"] by {
      if env.xdgConfigDirs.None? {
        SplitWhole("/etc/xdg", ':');
      }
    }
    dirs
  }

  /**
   * `CONF_FILES`, highest precedence first: `OCIEDOO_CONF`, the user's XDG
   * file, `~/.ociedoorc`, one file per XDG system directory, `/etc`.
   */
  function ConfFiles(env: Environment): (paths: seq<string>)
    ensures |paths| == |ConfigDirs(env)| + 4
    ensures paths[0] == env.ociedooConf.GetOr("")
  {
    [env.ociedooConf.GetOr("")]
      + Config.GetConfigFiles([ConfigHome(env)], RcName, Some(ProgramName))
      + Config.GetConfigFiles(["~"], "." + RcName, None)
      + Config.GetConfigFiles(ConfigDirs(env), RcName, Some(ProgramName))
      + Config.GetConfigFiles(["/etc"], RcName, Some(ProgramName))
  }

  /** The search path, file by file. */
  lemma ConfFilesOrder(env: Environment)
    ensures var paths := ConfFiles(env);
      && paths[0] == env.ociedooConf.GetOr("")
      && paths[1] == ConfigHome(env) + "/ociedoo/ociedoorc"
      && paths[2] == "~/.ociedoorc"
      && (forall i :: 0 <= i < |ConfigDirs(env)| ==> paths[3 + i] == ConfigDirs(env)[i] + "/ociedoo/ociedoorc")
      && paths[|paths| - 1] == "/etc/ociedoo/ociedoorc"
  {
    ConfFilesFixed(env);
    ConfFilesSystem(env);
  }

  lemma ConfFilesFixed(env: Environment)
    ensures var paths := ConfFiles(env);
      && paths[1] == ConfigHome(env) + "/ociedoo/ociedoorc"
      && paths[2] == "~/.ociedoorc"
      && paths[|paths| - 1] == "/etc/ociedoo/ociedoorc"
  {
    var paths := ConfFiles(env);
    assert paths[1] == Config.GetConfigFiles([ConfigHome(env)], RcName, Some(ProgramName))[0];
    RcPath(ConfigHome(env));
    assert paths[2] == Config.GetConfigFiles(["~"], "." + RcName, None)[0];
    HomeFile();
    assert paths[|paths| - 1] == Config.GetConfigFiles(["/etc"], RcName, Some(ProgramName))[0];
    RcPath("/etc");
    EtcFile();
  }

  lemma ConfFilesSystem(env: Environment)
    ensures var paths := ConfFiles(env);
      forall i :: 0 <= i < |ConfigDirs(env)| ==> paths[3 + i] == ConfigDirs(env)[i] + "/ociedoo/ociedoorc"
  {
    var paths := ConfFiles(env);
    var dirs := ConfigDirs(env);
    var systemFiles := Config.GetConfigFiles(dirs, RcName, Some(ProgramName));
    forall i | 0 <= i < |dirs|
      ensures paths[3 + i] == dirs[i] + "/ociedoo/ociedoorc"
    {
      assert paths[3 + i] == systemFiles[i];
      RcPath(dirs[i]);
    }
  }

  lemma HomeFile()
    ensures "~" + "/" + ("." + RcName) == "~/.ociedoorc"
  {
  }

  lemma EtcFile()
    ensures "/etc" + "/ociedoo/ociedoorc" == "/etc/ociedoo/ociedoorc"
  {
  }

  /** The file under one configuration directory. */
  lemma RcPath(dir: string)
    ensures dir + "/" + ProgramName + "/" + RcName == dir + "/ociedoo/ociedoorc"
  {
  }

  /** `DEFAULT_CONF`: the defaults file shipped in the package directory. */
  function DefaultConf(packageDir: string): string {
    packageDir + "/defaults/" + ProgramName + "rc.spec"
  }

  /** The configuration `main` loads: the shipped defaults, then `CONF_FILES`. */
  function ProgramConfig(packageDir: string, env: Environment, isFile: string -> bool, resolve: string -> string,
                         fs: Config.FileSystem): Result<Config.Loaded, Config.LoadError>
  {
    Config.Load(DefaultConf(packageDir), map[], ConfFiles(env), Config.DefaultSection, isFile, resolve, fs)
  }

  /** A file named by `OCIEDOO_CONF` overrides every other configuration file. */
  lemma OciedooConfWins(packageDir: string, env: Environment, isFile: string -> bool, resolve: string -> string,
                        fs: Config.FileSystem, key: Config.Key)
    requires ProgramConfig(packageDir, env, isFile, resolve, fs).Success?
    requires env.ociedooConf.Some? && Config.Sets(env.ociedooConf.value, key, isFile, resolve, fs)
    ensures var values := ProgramConfig(packageDir, env, isFile, resolve, fs).value.state.values;
      key in values && values[key] == fs[resolve(env.ociedooConf.value)].ini.entries[key]
  {
    Config.FirstExistingFileWins(DefaultConf(packageDir), map[], ConfFiles(env), Config.DefaultSection,
                                 isFile, resolve, fs, key, 0);
  }

  /** The options `main` reads from the `odoo` section, in the order it reads them. */
  const SettingNames := ["database_user", "binary_path", "config_path", "daemon_name", "working_directory"]

  /** The five settings `main` uses. */
  datatype Settings = Settings(
    databaseUser: string,
    binaryPath: string,
    configPath: string,
    daemonName: string,
    workingDirectory: string)

  function OdooOption(st: Config.ParserState, k: nat): Result<string, Config.LookupError>
    requires k < |SettingNames|
  {
    Config.Lookup(st, Config.DefaultSection, "odoo", SettingNames[k])
  }

  /**
   * The five `cfg.get("odoo", …)` calls of `main`: all of them succeed, or
   * the program stops with the error of the first that fails.
   */
  function OdooSettings(st: Config.ParserState): (r: Result<Settings, Config.LookupError>)
    ensures r.Success? <==> forall k :: 0 <= k < |SettingNames| ==> OdooOption(st, k).Success?
    ensures r.Success? ==> r.value == Settings(OdooOption(st, 0).value, OdooOption(st, 1).value,
                                               OdooOption(st, 2).value, OdooOption(st, 3).value,
                                               OdooOption(st, 4).value)
    ensures r.Failure? ==> exists k :: 0 <= k < |SettingNames| && OdooOption(st, k) == Failure(r.error)
                                       && forall j :: 0 <= j < k ==> OdooOption(st, j).Success?
    ensures "odoo" !in st.sections ==> r == Failure(Config.NoSection("odoo"))
  {
    var user, binary, conf, daemon, dir :=
      OdooOption(st, 0), OdooOption(st, 1), OdooOption(st, 2), OdooOption(st, 3), OdooOption(st, 4);
    if user.Failure? then Failure(user.error)
    else if binary.Failure? then Failure(binary.error)
    else if conf.Failure? then Failure(conf.error)
    else if daemon.Failure? then Failure(daemon.error)
    else if dir.Failure? then Failure(dir.error)
    else Success(Settings(user.value, binary.value, conf.value, daemon.value, dir.value))
  }

  /** The first `|`-separated field of a line of `psql -l` output. */
  function FirstField(line: string): string {
    Split(line, '|')[0]
  }

  /** The database name of each listing line, in order. */
  function FirstFields(lines: seq<string>): (names: seq<string>)
    ensures |names| == |lines|
    ensures forall i :: 0 <= i < |lines| ==> names[i] == Strip(FirstField(lines[i]))
  {
    if lines == [] then [] else [Strip(FirstField(lines[0]))] + FirstFields(lines[1..])
  }

  /**
   * `get_all_db`: one name per line of the stripped listing, the text
   * before the first `|` with surrounding whitespace removed; no name
   * holds a `|` or a line break.
   */
  function GetAllDb(listing: string): (names: seq<string>)
    ensures |names| == |Split(Strip(listing), '\n')|
    ensures forall i :: 0 <= i < |names| ==> names[i] == Strip(Split(Split(Strip(listing), '\n')[i], '|')[0])
    ensures forall i :: 0 <= i < |names| ==> '|' !in names[i] && '\n' !in names[i] && Trimmed(names[i])
  {
    var lines := Split(Strip(listing), '\n');
    var names := FirstFields(lines);
    assert forall i :: 0 <= i < |names| ==> '|' !in names[i] && '\n' !in names[i] by {
      forall i | 0 <= i < |names|
        ensures '|' !in names[i] && '\n' !in names[i]
      {
        if '|' in names[i] {
          StripContained(FirstField(lines[i]), '|');
        }
        if '\n' in names[i] {
          StripContained(FirstField(lines[i]), '\n');
          JoinContains(Split(lines[i], '|'), '|', 0, '\n');
        }
      }
    }
    names
  }

  /**
   * A listing whose stripped text is rows `field|rest` joined by line
   * breaks lists the stripped fields, in order: whitespace around the
   * listing and around each field, as `psql -l` pads its columns, is
   * what the two strips remove.
   */
  lemma {:induction false} GetAllDbOfRows(listing: string, fields: seq<string>, rests: seq<string>, names: seq<string>)
    requires |fields| == |rests| == |names| >= 1
    requires forall i :: 0 <= i < |fields| ==> '|' !in fields[i] && Strip(fields[i]) == names[i]
    requires forall i :: 0 <= i < |fields| ==> '\n' !in fields[i] + "|" + rests[i]
    requires Strip(listing) == Join(Rows(fields, rests), '\n')
    ensures GetAllDb(listing) == names
  {
    var rows := Rows(fields, rests);
    SplitJoin(rows, '\n');
    assert GetAllDb(listing) == FirstFields(rows);
    FirstFieldsOfRows(fields, rests, names);
  }

  /** The first field of each row `field|rest`, stripped, is the stripped field. */
  lemma FirstFieldsOfRows(fields: seq<string>, rests: seq<string>, names: seq<string>)
    requires |fields| == |rests| == |names|
    requires forall i :: 0 <= i < |fields| ==> '|' !in fields[i] && Strip(fields[i]) == names[i]
    ensures FirstFields(Rows(fields, rests)) == names
  {
    var firsts := FirstFields(Rows(fields, rests));
    forall i | 0 <= i < |fields|
      ensures firsts[i] == names[i]
    {
      FirstFieldOfRow(fields[i], rests[i]);
    }
  }

  /** The text before the bar of one row `field|rest`. */
  lemma FirstFieldOfRow(field: string, rest: string)
    requires '|' !in field
    ensures FirstField(field + "|" + rest) == field
  {
    SplitAfter(field, rest, '|');
    assert field + "|" + rest == field + ['|'] + rest;
  }

  /** The listing lines `field|rest`. */
  function Rows(fields: seq<string>, rests: seq<string>): (rows: seq<string>)
    requires |fields| == |rests|
    ensures |rows| == |fields|
    ensures forall i :: 0 <= i < |fields| ==> rows[i] == fields[i] + "|" + rests[i]
  {
    if fields == [] then [] else [fields[0] + "|" + rests[0]] + Rows(fields[1..], rests[1..])
  }

  /** The comma-separated names of a database argument, each trimmed. */
  function TrimmedPieces(pieces: seq<string>): (names: seq<string>)
    ensures |names| == |pieces|
    ensures forall i :: 0 <= i < |pieces| ==> names[i] == Strip(pieces[i])
  {
    if pieces == [] then [] else [Strip(pieces[0])] + TrimmedPieces(pieces[1..])
  }

  /** A character absent from every piece is absent from every trimmed piece. */
  lemma TrimmedPiecesWithout(pieces: seq<string>, c: char)
    requires forall i :: 0 <= i < |pieces| ==> c !in pieces[i]
    ensures forall i :: 0 <= i < |pieces| ==> c !in TrimmedPieces(pieces)[i]
  {
    forall i | 0 <= i < |pieces|
      ensures c !in TrimmedPieces(pieces)[i]
    {
      if c in Strip(pieces[i]) {
        StripContained(pieces[i], c);
      }
    }
  }

  /**
   * The databases to update: the listing when the trimmed argument is
   * `all`, else the comma-separated names, trimmed, in order, duplicates
   * and empty names kept.
   */
  function TargetDatabases(databases: string, listing: string): (dbs: seq<string>)
    ensures Strip(databases) == "all" ==> dbs == GetAllDb(listing)
    ensures Strip(databases) != "all" ==>
      && |dbs| == |Split(databases, ',')|
      && (forall i :: 0 <= i < |dbs| ==> dbs[i] == Strip(Split(databases, ',')[i]))
      && forall i :: 0 <= i < |dbs| ==> ',' !in dbs[i] && Trimmed(dbs[i])
  {
    if Strip(databases) == "all" then GetAllDb(listing)
    else
      var pieces := Split(databases, ',');
      TrimmedPiecesWithout(pieces, ',');
      TrimmedPieces(pieces)
  }

  /**
   * Names written with `,` between them, each padded with whitespace,
   * come back as written, unless the argument reads `all`.
   */
  lemma {:induction false} TargetDatabasesOfNames(names: seq<string>, padded: seq<string>, listing: string)
    requires |names| == |padded| >= 1
    requires forall i :: 0 <= i < |names| ==> ',' !in padded[i] && Strip(padded[i]) == names[i]
    requires names != ["all"]
    ensures TargetDatabases(Join(padded, ','), listing) == names
  {
    JoinedNotAll(names, padded);
    SplitJoin(padded, ',');
  }

  /** Two or more pieces keep a comma after stripping, and one piece strips to its name. */
  lemma JoinedNotAll(names: seq<string>, padded: seq<string>)
    requires |names| == |padded| >= 1
    requires Strip(padded[0]) == names[0]
    requires names != ["all"]
    ensures Strip(Join(padded, ',')) != "all"
  {
    var databases := Join(padded, ',');
    if |padded| > 1 {
      assert ',' in Strip(databases) by {
        assert databases == padded[0] + [','] + Join(padded[1..], ',');
        assert databases[|padded[0]|] == ',';
        StripKeeps(databases, ',');
      }
      assert ',' !in "all";
    } else {
      assert names == [names[0]];
    }
  }

  /** Three names spelled `a, b ,c`, spaces around the commas, are the three databases. */
  lemma ThreeDatabases(a: string, b: string, c: string, listing: string)
    requires a != [] && b != [] && c != []
    requires Trimmed(a) && Trimmed(b) && Trimmed(c)
    requires ',' !in a && ',' !in b && ',' !in c
    ensures TargetDatabases(a + ", " + b + " ," + c, listing) == [a, b, c]
  {
    var names, padded := [a, b, c], [a, " " + b + " ", c];
    ThreeJoined(a, b, c);
    ThreeStripped(a, b, c);
    forall i | 0 <= i < 3
      ensures ',' !in padded[i] && Strip(padded[i]) == names[i]
    {
      assert i == 0 || i == 1 || i == 2;
    }
    TargetDatabasesOfNames(names, padded, listing);
  }

  lemma ThreeJoined(a: string, b: string, c: string)
    ensures Join([a, " " + b + " ", c], ',') == a + ", " + b + " ," + c
  {
    var padded := [a, " " + b + " ", c];
    assert padded[1..] == [" " + b + " ", c];
    assert padded[2..] == [c];
    assert Join(padded[1..], ',') == " " + b + " " + [','] + c;
    assert a + [','] + (" " + b + " " + [','] + c) == a + ", " + b + " ," + c;
  }

  lemma ThreeStripped(a: string, b: string, c: string)
    requires a != [] && b != [] && c != []
    requires Trimmed(a) && Trimmed(b) && Trimmed(c)
    ensures Strip(a) == a && Strip(" " + b + " ") == b && Strip(c) == c
  {
    StripPadded(" ", b, " ");
    StripTrimmed(a);
    StripTrimmed(c);
  }

  /**
   * `is_odoo_running`: the stripped `systemctl` output is `active`, or ends
   * with `=active`.
   */
  function IsOdooRunning(state: string): (running: bool)
    ensures var s := Strip(state); running <==> s == "active" || (|s| >= 7 && s[|s| - 7..] == "=active")
  {
    var s := Strip(state);
    LastPieceIsActive(s);
    LastPiece(s, '=') == "active"
  }

  /** The text after the last `=` is `active` exactly when the text is `active` or ends with `=active`. */
  lemma LastPieceIsActive(s: string)
    ensures LastPiece(s, '=') == "active" <==> s == "active" || (|s| >= 7 && s[|s| - 7..] == "=active")
  {
    ActiveFromLastPiece(s);
    LastPieceFromActive(s);
  }

  lemma ActiveFromLastPiece(s: string)
    ensures LastPiece(s, '=') == "active" ==> s == "active" || (|s| >= 7 && s[|s| - 7..] == "=active")
  {
    LastPieceIsTail(s, '=');
    var n := |s|;
    if LastPiece(s, '=') == "active" && n != 6 {
      assert s[n - 7] == '=' && s[n - 6..] == "active";
      assert s[n - 7..] == [s[n - 7]] + s[n - 6..];
    }
  }

  lemma LastPieceFromActive(s: string)
    ensures s == "active" || (|s| >= 7 && s[|s| - 7..] == "=active") ==> LastPiece(s, '=') == "active"
  {
    var n := |s|;
    if s == "active" {
      LastPieceOfTail(s, '=', "active");
    } else if n >= 7 && s[n - 7..] == "=active" {
      var tail := s[n - 7..];
      assert s[n - 7] == tail[0] == '=';
      assert s[n - 6..] == tail[1..] == "active";
      LastPieceOfTail(s, '=', "active");
    }
  }

  /**
   * A `systemctl show` answer `name=value`, followed by whitespace, reports
   * a running service exactly when the value is `active`.
   */
  lemma RunningWhenActive(name: string, value: string, post: string)
    requires name != [] && !IsSpace(name[0]) && AllSpace(post)
    requires value != [] && Trimmed(value) && '=' !in value
    ensures IsOdooRunning(name + "=" + value + post) <==> value == "active"
  {
    AnswerValue(name, value, post);
  }

  /** The stripped answer is `name=value`, and its text after the last `=` is the value. */
  lemma AnswerValue(name: string, value: string, post: string)
    requires name != [] && !IsSpace(name[0]) && AllSpace(post)
    requires value != [] && Trimmed(value) && '=' !in value
    ensures Strip(name + "=" + value + post) == name + "=" + value
    ensures LastPiece(name + "=" + value, '=') == value
  {
    var w := name + "=" + value;
    StripPadded("", w, post);
    assert "" + w + post == name + "=" + value + post;
    assert w[|w| - |value|..] == value;
    LastPieceOfTail(w, '=', value);
  }

  /**
   * The Odoo command line for one database: the configuration file, the
   * database as both filter and selection, the log on standard output,
   * stop after init, then the passthrough arguments verbatim.
   */
  function OdooArgs(odooConfPath: string, db: string, odooArgs: seq<string>): (argv: seq<string>)
    ensures |argv| == 9 + |odooArgs|
    ensures argv[..9] == ["-c", odooConfPath, "--db-filter", db, "-d", db, "--logfile", "/proc/self/fd/1", "--stop-after-init"]
    ensures argv[9..] == odooArgs
  {
    ["-c", odooConfPath, "--db-filter", db, "-d", db, "--logfile", "/proc/self/fd/1", "--stop-after-init"] + odooArgs
  }

  /** Different databases give different command lines, so the launches name the databases. */
  lemma {:induction false} OdooArgsInjective(conf: string, db: string, db': string, args: seq<string>, args': seq<string>)
    requires OdooArgs(conf, db, args) == OdooArgs(conf, db', args')
    ensures db == db' && args == args'
  {
    var argv := OdooArgs(conf, db, args);
    assert argv[3] == db;
    assert OdooArgs(conf, db', args')[3] == db';
    assert argv[9..] == args;
    assert OdooArgs(conf, db', args')[9..] == args';
  }

  /** How the wait on one launched child ends. */
  datatype ChildOutcome =
    | Exited               // the wait returned
    | InterruptThenExited  // interrupted once; after the forwarded SIGINT the child exited
    | DoubleInterrupt      // interrupted again while waiting after the SIGINT

  /** How the program ends. */
  datatype Exit =
    | Completed        // every database ran without interruption
    | ServiceRunning   // the Odoo service is active
    | CommandNotFound  // the Odoo binary was not found
    | Interrupted      // one interrupt: the child was stopped, then killed
    | ForcedShutdown   // a second interrupt: the child was killed at once
  {
    /** The status passed to `sys.exit`. */
    function Code(): int {
      if Completed? then 0 else 1
    }
  }

  /**
   * `main` after the configuration is loaded: refuse to run while the
   * service is active or when the binary is missing, then launch and wait
   * on one child per database in order. Any interrupt ends the program.
   * `behaviour(k)` is how the wait on the `k`-th child ends.
   */
  method Run(odooConfPath: string, databases: string, listing: string, serviceState: string,
             binaryFound: bool, odooArgs: seq<string>, behaviour: nat -> ChildOutcome)
    returns (launched: seq<seq<string>>, exit: Exit)
    ensures IsOdooRunning(serviceState) ==> launched == [] && exit == ServiceRunning
    ensures !IsOdooRunning(serviceState) && !binaryFound ==> launched == [] && exit == CommandNotFound
    ensures !IsOdooRunning(serviceState) && binaryFound ==>
      Launches(odooConfPath, TargetDatabases(databases, listing), odooArgs, behaviour, launched, exit)
    ensures exit.Code() == 0 <==>
      && !IsOdooRunning(serviceState) && binaryFound
      && forall k :: 0 <= k < |TargetDatabases(databases, listing)| ==> behaviour(k) == Exited
  {
    var dbs := TargetDatabases(databases, listing);
    if IsOdooRunning(serviceState) {
      return [], ServiceRunning;
    }
    if !binaryFound {
      return [], CommandNotFound;
    }
    launched, exit := RunAll(odooConfPath, dbs, odooArgs, behaviour);
  }

  /**
   * What the run loop promises for the databases `dbs`: the children
   * launched are a prefix of the databases, each with its command line;
   * all but the last exited normally; the run completes exactly when every
   * child exited normally, and otherwise stops at the first interrupted one.
   */
  predicate Launches(odooConfPath: string, dbs: seq<string>, odooArgs: seq<string>, behaviour: nat -> ChildOutcome,
                     launched: seq<seq<string>>, exit: Exit)
  {
    && |launched| <= |dbs|
    && (forall k :: 0 <= k < |launched| ==> launched[k] == OdooArgs(odooConfPath, dbs[k], odooArgs))
    && (forall k :: 0 <= k < |launched| - 1 ==> behaviour(k) == Exited)
    && (exit == Completed <==> forall k :: 0 <= k < |dbs| ==> behaviour(k) == Exited)
    && (exit == Completed ==> |launched| == |dbs|)
    && (exit == Interrupted <==> launched != [] && behaviour(|launched| - 1) == InterruptThenExited)
    && (exit == ForcedShutdown <==> launched != [] && behaviour(|launched| - 1) == DoubleInterrupt)
    && (exit == Completed || exit == Interrupted || exit == ForcedShutdown)
  }

  /** The loop over the databases: launch, wait, and stop at the first interrupt. */
  method RunAll(odooConfPath: string, dbs: seq<string>, odooArgs: seq<string>, behaviour: nat -> ChildOutcome)
    returns (launched: seq<seq<string>>, exit: Exit)
    ensures Launches(odooConfPath, dbs, odooArgs, behaviour, launched, exit)
  {
    launched := [];
    var i := 0;
    while i < |dbs|
      invariant 0 <= i <= |dbs| && |launched| == i
      invariant forall k :: 0 <= k < i ==> launched[k] == OdooArgs(odooConfPath, dbs[k], odooArgs)
      invariant forall k :: 0 <= k < i ==> behaviour(k) == Exited
    {
      launched := launched + [OdooArgs(odooConfPath, dbs[i], odooArgs)];
      // The first wait ends in an interrupt: SIGINT goes to the child and the program waits again.
      if behaviour(i) != Exited {
        if behaviour(i) == DoubleInterrupt {
          // Second interrupt: the child is killed and the program stops.
          return launched, ForcedShutdown;
        }
        // The child stopped after the SIGINT: it is killed anyway and the program stops.
        return launched, Interrupted;
      }
      i := i + 1;
    }
    exit := Completed;
  }
}
