# ociedoo, modelled in Dafny

ociedoo is a command-line wrapper that runs `odoo --stop-after-init` once per
database to update modules, one database after the other. Before it starts,
it refuses to run while the Odoo service is active. It takes its own settings
from a layered set of INI configuration files.

This project models the two parts of the program that carry its logic:

- **Layered configuration** (`config.dfy`, module `Config`):
  - `get_config_files` builds the candidate paths;
  - `Config.__init__` loads a mandatory defaults file, then the override files
    that exist, in reverse order, so that the first file of the list wins;
  - lookups fall back to the `general` section.
  The ConfigParser state is a set of sections and a map from
  (section, option) to value. `class Config` is the imperative object: its
  constructor, `ReadFile` (`read_file`), `Read` (`ConfigParser.read`, a loop)
  and `New` (`__init__`). Each is proved against a pure function: the
  constructor against `FromDefaults`, `ReadFile` against `ReadFileInto`,
  `Read` against `ReadAll`, and `New` against `Load`.
- **The command** (`ociedoo.dfy`, module `Ociedoo`):
  - the `CONF_FILES` search path, computed from the environment;
  - the five settings `main` reads;
  - `get_all_db` parsing of the `psql -l | grep` output;
  - the database argument (`all` or a comma-separated list);
  - `is_odoo_running`;
  - the Odoo command line for one database;
  - the run loop with its interrupt handling.

`text.dfy` (module `Text`) models Python's `str.strip()` and `str.split(sep)`,
on which the parsing relies. `wrappers.dfy` holds `Option` and `Result`.

The file system is three parameters:

- `isFile` is `Path(p).expanduser().exists()`;
- `resolve` is `expanduser().resolve()`;
- `fs` maps a resolved path to what reading it yields: a parsed `IniFile` or
  `Malformed`. A path missing from `fs` cannot be opened.

The outputs of external commands are inputs of the model:

- the `psql -l | grep` listing;
- the `systemctl show` answer;
- whether the Odoo binary was found;
- how each wait on a child ends.

On an interrupt, the program sends `SIGINT` to the child and waits for it
again; after that wait, or at once on a second interrupt, it kills the child
and exits with status 1 (`ociedoo/ociedoo/__main__.py:128-139`). The
databases after the interrupted one are not updated. `Ociedoo.RunAll` stops
at the first interrupt, with `Interrupted` or `ForcedShutdown`.

## Model

| member | source | states |
|---|---|---|
| Config.GetConfigFiles | ociedoo/ociedoo/config.py:7-25 | one path per location, in order: `location/directory/name` when the directory is given and non-empty, otherwise `location/name` |
| Config.Baseline | ociedoo/ociedoo/config.py:45-53 | the parser before any override. It succeeds exactly when the `defaults` dictionary is non-empty or the defaults file opens and parses, and an error names the resolved defaults file. With a non-empty dictionary it holds exactly the dictionary's options, under the default section, and no sections; otherwise exactly the defaults file's values, with its headers other than the default section as sections |
| Config.Load | ociedoo/ociedoo/config.py:31-65 | definition of what `__init__` builds: `Baseline`, then `ReadAll` of the reversed existing files; characterised by `Config.FirstExistingFileWins`, `Config.DefaultValueKept`, `Config.MissingFileSkipped` and `Config.LoadSucceeds` |
| Config.Existing | ociedoo/ociedoo/config.py:55-60 | the resolved existing paths are no more than the candidates, and none is kept when no candidate exists |
| Config.Reverse | ociedoo/ociedoo/config.py:61-63 | the reversed list has the same length, and element `i` is element `n-1-i` of the input |
| Config.ExistingSkipsMissing | ociedoo/ociedoo/config.py:56-58 | removing a candidate that does not exist leaves the resolved list unchanged |
| Config.MissingFileSkipped | ociedoo/ociedoo/config.py:54-65 | a configuration file that does not exist has no effect on the loaded configuration or on the error |
| Config.ReadReversedFirstWins | ociedoo/ociedoo/config.py:61-65 | reading the reversed existing files, last write wins, gives each key the value of the first file in list order that sets it (the reference `Winner`), or else keeps its baseline value |
| Config.FirstExistingFileWins | ociedoo/ociedoo/config.py:40-65 | after loading, a key holds the value from the earliest existing, parsed configuration file that sets it, whatever later files say |
| Config.DefaultValueKept | ociedoo/ociedoo/config.py:47-65 | a key that no override file sets keeps the value from the defaults file, and stays absent if the defaults do not set it |
| Config.DefaultsFileValueKept | ociedoo/tests/test_config.py:58-60 | with no defaults dictionary, an option set in the defaults file and in no existing override file keeps the defaults file's value after loading |
| Config.ReadReversedSucceeds | ociedoo/ociedoo/config.py:63-65 | reading the overrides fails exactly when an existing file can be opened but is malformed |
| Config.LoadSucceeds | ociedoo/ociedoo/config.py:45-65 | `__init__` succeeds exactly when the defaults file (needed when no defaults dictionary is given) opens and parses, and no existing override is malformed |
| Config.ReadAllKeeps | ociedoo/ociedoo/config.py:65 | reading more files never removes a section or a key |
| Config.Lookup | ociedoo/ociedoo/__main__.py:87-91 | `get`: an unknown section other than `general` is an error; otherwise the section's own value, else the `general` value; when neither exists, a missing-option error |
| Config.LoadedLookup | ociedoo/ociedoo/config.py:40-65 | after loading, `get(section, option)` returns the value from the earliest existing configuration file that sets that option in that section, when the file's values all sit under its own headers |
| Config.Config.constructor | ociedoo/ociedoo/config.py:45-46 | the parser starts with the defaults dictionary under the default section, with no sections and no sources |
| Config.Config.ReadFile | ociedoo/ociedoo/config.py:52-53 | the file's headers (except `general`) join the sections, and its values overwrite the existing ones |
| Config.Config.Read | ociedoo/ociedoo/config.py:65 | the loop reads the paths in order and skips those that cannot be opened; the new state and the returned sources are those of `ReadAll`; it fails with `ReadAll`'s error at the first malformed file |
| Config.Config.New | ociedoo/ociedoo/config.py:31-65 | the object built (state and `config_sources`), or the error raised, is exactly `Load` of the same inputs |
| Config.TestConfigScenario | ociedoo/tests/test_config.py:30-62 | with a defaults file, overrides `one` and `two`, and a missing `wrong`: loading succeeds; `default` is `value` from the defaults, and `item` is `value` and `foo` is `one`, both from `one` |
| Ociedoo.ConfigHome | ociedoo/ociedoo/__main__.py:30-31 | definition: `XDG_CONFIG_HOME`, by default `.config` under the home directory; its place in the search path is stated by `Ociedoo.ConfFilesOrder` |
| Ociedoo.ConfigDirs | ociedoo/ociedoo/__main__.py:32-33 | `XDG_CONFIG_DIRS` (by default `/etc/xdg`) split on colons: at least one entry, none holding a colon, and joined with colons they give the variable back; `/etc/xdg` alone when the variable is unset |
| Ociedoo.DefaultConf | ociedoo/ociedoo/__main__.py:24-26 | definition: `defaults/ociedoorc.spec` under the package directory, the defaults file `Ociedoo.ProgramConfig` loads |
| Ociedoo.ProgramConfig | ociedoo/ociedoo/__main__.py:84-85 | definition: the `config.Config(defaults_file=DEFAULT_CONF, config_files=CONF_FILES)` call of `main`, that is `Config.Load` of the shipped defaults and the search path; characterised by `Ociedoo.OciedooConfWins` and the `Config` lemmas about `Load` |
| Ociedoo.ConfFiles | ociedoo/ociedoo/__main__.py:28-46 | the search path has one entry per XDG system directory plus four, and `OCIEDOO_CONF` (or the empty string) comes first |
| Ociedoo.ConfFilesOrder | ociedoo/ociedoo/__main__.py:28-46 | the entries in order: `OCIEDOO_CONF`, `$XDG_CONFIG_HOME/ociedoo/ociedoorc`, `~/.ociedoorc`, each `$XDG_CONFIG_DIRS` entry with `/ociedoo/ociedoorc`, then `/etc/ociedoo/ociedoorc` |
| Ociedoo.OciedooConfWins | ociedoo/ociedoo/__main__.py:34-46 | a file named by `OCIEDOO_CONF` that exists and sets a key overrides every other configuration file |
| Ociedoo.OdooSettings | ociedoo/ociedoo/__main__.py:87-91 | the five `odoo` options are read when every lookup succeeds; otherwise the error is that of the first failing lookup; a missing `odoo` section is a missing-section error |
| Ociedoo.GetAllDb | ociedoo/ociedoo/__main__.py:64-69 | one name per line of the stripped listing: the line's text before its first vertical bar, stripped; each name is trimmed and holds no vertical bar and no line break |
| Ociedoo.FirstFieldsOfRows | ociedoo/ociedoo/__main__.py:68 | for rows each made of a field without a vertical bar, a vertical bar and the rest, the text before the first bar of each row, stripped, is that row's field stripped |
| Ociedoo.GetAllDbOfRows | ociedoo/ociedoo/__main__.py:64-69 | a listing that, once stripped, is rows joined by line breaks, each a field padded with any whitespace, a vertical bar and the rest, as `psql -l` prints them, yields exactly the stripped fields, in order |
| Ociedoo.TargetDatabases | ociedoo/ociedoo/__main__.py:93-96 | `all` (after stripping) selects the listing; any other argument gives, per comma-separated piece in order, that piece stripped, which is trimmed and contains no comma |
| Ociedoo.JoinedNotAll | ociedoo/ociedoo/__main__.py:93 | an argument with a comma never selects all databases, and a single piece does so only when it strips to `all` |
| Ociedoo.TargetDatabasesOfNames | ociedoo/ociedoo/__main__.py:93-96 | names written with commas between them, each padded with whitespace, come back exactly as written, in order, unless the argument is just `all` |
| Ociedoo.ThreeDatabases | ociedoo/ociedoo/__main__.py:96 | `a, b ,c` selects the databases `a`, `b`, `c` |
| Ociedoo.IsOdooRunning | ociedoo/ociedoo/__main__.py:72-78 | running iff the stripped answer is `active` or ends with `=active` |
| Ociedoo.LastPieceIsActive | ociedoo/ociedoo/__main__.py:78 | the text after the last `=` is `active` exactly when the text is `active` or ends with `=active` |
| Ociedoo.RunningWhenActive | ociedoo/ociedoo/__main__.py:72-78 | an answer `name=value` followed by whitespace means running exactly when `value` is `active` |
| Ociedoo.OdooArgs | ociedoo/ociedoo/__main__.py:115-121 | the argument vector is `-c conf --db-filter db -d db --logfile /proc/self/fd/1 --stop-after-init` followed by the passthrough arguments unchanged |
| Ociedoo.OdooArgsInjective | ociedoo/ociedoo/__main__.py:115-121 | equal command lines name the same database and the same passthrough arguments |
| Ociedoo.RunAll | ociedoo/ociedoo/__main__.py:114-140 | the loop launches a prefix of the databases, in order, each with its command line; every child but the last exited normally; it completes exactly when every wait returned; otherwise it stops at the first interrupted child, with `Interrupted` or `ForcedShutdown` |
| Ociedoo.Run | ociedoo/ociedoo/__main__.py:93-140 | an active service stops the program before any launch, and so does a missing binary; otherwise the run loop's guarantees hold for the selected databases; the exit status is 0 exactly when nothing stopped it and every wait returned |
| Text.Strip | ociedoo/ociedoo/__main__.py:66 | `str.strip()`: the result is no longer than the text and neither starts nor ends with whitespace |
| Text.StripTrimmed | ociedoo/ociedoo/__main__.py:68 | stripping text without surrounding whitespace changes nothing |
| Text.StripPadded | ociedoo/ociedoo/__main__.py:77 | whitespace around trimmed text is exactly what stripping removes |
| Text.StripKeeps | ociedoo/ociedoo/__main__.py:93 | a non-whitespace character of the text survives stripping |
| Text.StripContained | ociedoo/ociedoo/__main__.py:68 | every character of the stripped text occurs in the text |
| Text.Split | ociedoo/ociedoo/__main__.py:67 | `str.split(sep)`: at least one piece, no piece contains the separator, and joining the pieces with it gives the text back |
| Text.SplitJoin | ociedoo/ociedoo/__main__.py:67 | splitting the join of separator-free pieces gives the pieces back |
| Text.LastPieceIsTail | ociedoo/ociedoo/__main__.py:78 | `split(sep)[-1]` is a suffix of the text that is either the whole text or preceded by the separator |
| Text.LastPieceOfTail | ociedoo/ociedoo/__main__.py:78 | conversely, such a separator-free suffix is `split(sep)[-1]` |

## Left out

- External commands (`sh.psql`, `sh.grep`, `sh.systemctl`, `sh.Command`): their outputs are inputs. `database_user` and `daemon_name` only feed those commands.
- Output streaming, the printed messages, and the sending of `SIGINT` and `kill` to the child. How a wait ends is the input `behaviour`. An interrupt arriving outside a wait is not modelled.
- A child that exits with a non-zero status: `Exited` means the wait returned. Whether the `sh` library raises on a non-zero status is library behaviour and is not part of this model.
- `os.chdir(odoo_working_dir)` (line 104) and its failure.
- Argument parsing (`init_parser`): the database argument and the passthrough arguments are inputs.
- Reading environment variables and `Path.home()`: they are the `Environment` value. `DEFAULTSPATH` derived from `__file__` is the `packageDir` parameter.
- INI syntax: a file is given already parsed, or as `Malformed`. Option-name lowercasing (`optionxform`), value interpolation, and strict-mode duplicate errors inside one file are not modelled; a duplicate counts as `Malformed`.
- pathlib normalisation: `Config.PathJoin` joins with `/`. Empty or `.` components, trailing slashes and absolute children are not normalised. `expanduser().resolve()` is the `resolve` parameter.
- Config.Existing: states only a length bound and the case where no file exists. The exact contents follow from its definition and from `Config.ExistingSkipsMissing`.
- `ConfigParser.get`'s `raw`, `vars` and `fallback` parameters: the program does not use them.
- Concrete systemctl answers (`ActiveState=active`) are covered by `Ociedoo.RunningWhenActive` for any name and value, not as literal strings.
- `setup.py`: packaging only.
