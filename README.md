# sklauncher executor, modelled in Dafny

sklauncher is an application launcher. When the user picks an entry, its
executor (`src/exec.rs`) does the following:

- bumps the entry's usage count in the ordered entry map;
- decides how to run the entry from two flags:
  - a bare command found on the search path runs its template trimmed;
  - a desktop-entry application runs its template trimmed and stripped of
    desktop-entry field codes (`%f`, `%u`, ...);
  - a desktop-entry terminal application runs that stripped command inside a
    terminal emulator;
- spawns the resulting shell line detached from the launcher;
- writes the whole map back to the history file.

The model has three files:

- `wrappers.dfy`: `Option`, `Result` and `Outcome`.
- `text.dfy` (module `Text`): `str::trim` and the one-pass removal of every
  match of the field-code regex `\s*%\w`, written as recursive functions with
  their lemmas.
  - Trim is characterised completely. The input is a whitespace run, the
    result and a whitespace run, and any such split gives the same result.
  - Stripping deletes exactly the characters of the leftmost non-overlapping
    matches. A match takes the whole whitespace run before the `%`.
  - The result is a subsequence of the input.
  - It is shorter than the input exactly when the input holds `%` followed by
    a word character, and unchanged otherwise.
  - It is one pass only: `%%ff` becomes `%f`.
- `exec.dfy` (module `Exec`): the entry map and the launch logic.
  - The entry and the insertion-ordered entry map (a key sequence plus a map).
  - The terminal vector and its precedence: configured template, then `TERM`
    followed by `-e`, then `alacritty -e`.
  - A `Launcher` class. It holds the map and a ghost trace of effects, where a
    launch is `Launch(command)` and a history write is `Save(map)`.
  - `Execute` updates the map in place. It states the new map and the exact
    effects: one launch, then one save of the updated map.

The options and the environment come in as parameters:

- The `--terminal-command` option and the `TERM` environment value are passed
  in as `Options`.
- `shlex::split` and `shlex::try_join` are passed in as the two functions of a
  `Shlex` value. Their failures (an unparsable template, an unquotable word)
  become `Fatal` outcomes instead of panics.

Three behaviours of the code are easy to miss:

- A field code is `%` followed by any `\w` character, not only a letter.
  `%1` and `%_` are removed too (src/exec.rs:11).
- Executing an absent key is not a recoverable error that leaves the map
  untouched. `get_mut(..).unwrap()` panics (src/exec.rs:19), so the key's
  presence is a precondition of `Execute`.
- Field codes are removed after trimming (src/exec.rs:41-42, 47). A leading
  field code can therefore leave leading whitespace behind: `%u  app` becomes
  `  app`.

## Model

| member | source | states |
|---|---|---|
| `Text.SpaceRun` | src/exec.rs:35 | the leading run `trim` drops is all whitespace and stops at the first non-whitespace character |
| `Text.TrailingSpaceRunIsMaximal` | src/exec.rs:35 | the trailing run `trim` drops is all whitespace and stops at the last non-whitespace character |
| `Text.Trim` | src/exec.rs:35 | the trimmed command is no longer than the template and neither starts nor ends with whitespace |
| `Text.TrimDecompose` | src/exec.rs:35 | every template is a whitespace run, its trimmed form and a whitespace run, in that order |
| `Text.TrimUnique` | src/exec.rs:35 | whenever a string splits into whitespace, a part bounded by non-whitespace, and whitespace, trimming yields exactly that part |
| `Text.TrimIdempotent` | src/exec.rs:35 | trimming a trimmed command changes nothing |
| `Text.TrimWithoutPercent` | src/exec.rs:41 | trimming introduces no `%` |
| `Text.FieldCodeLen` | src/exec.rs:11 | a nonzero match length at the start of the string covers a prefix in the language of `\s*%\w` |
| `Text.FieldCodeLenIsTheMatch` | src/exec.rs:11 | a prefix matches `\s*%\w` exactly when its length is the computed match length, so a match takes the whole whitespace run before `%` |
| `Text.Strip` | src/exec.rs:42 | the result of `replace_all(.., "")` is never longer than its input |
| `Text.StripKeepsUnmasked` | src/exec.rs:42 | `replace_all` returns the input with exactly the characters of the leftmost non-overlapping matches deleted and the rest kept in order |
| `Text.StripDeletesOnlyFieldCodeCharacters` | src/exec.rs:11 | every deleted character is whitespace, `%` or a word character |
| `Text.StripIsSubsequence` | src/exec.rs:42 | the stripped command is a subsequence of the trimmed command |
| `Text.StripShortensAt` | src/exec.rs:42 | any `%` followed by a word character makes the result strictly shorter |
| `Text.ShortenedHasFieldCode` | src/exec.rs:42 | a strictly shorter result implies the input held `%` followed by a word character |
| `Text.StripShortensIff` | src/exec.rs:42 | the result is shorter if and only if the input holds `%` followed by a word character |
| `Text.StripFullLength` | src/exec.rs:42 | a result as long as its input equals the input |
| `Text.StripUnchangedIff` | src/exec.rs:42 | the input comes back unchanged if and only if it holds no `%` followed by a word character |
| `Text.StripWithoutPercent` | src/exec.rs:42 | an input without `%` comes back unchanged |
| `Text.StripIsSinglePass` | src/exec.rs:11 | one pass only: `%%ff` becomes `%f`, which still holds a field code |
| `Text.StripTakesWholeSpaceRun` | src/exec.rs:11 | `vim  %f` becomes `vim`: both spaces go with the field code |
| `Exec.AppCommand` | src/exec.rs:40-43 | the app command is a subsequence of the trimmed template and no longer than it |
| `Exec.AppCommandWithoutPercent` | src/exec.rs:40-43 | a template without `%` is launched as the trimmed template, unchanged |
| `Exec.BaseVector` | src/exec.rs:49-58 | the vector before the command fails exactly when a configured template does not split, with that template as the error; without a template it is two words ending in `-e` |
| `Exec.TermVector` | src/exec.rs:49-59 | only an unsplittable configured template makes the terminal vector fail, and on success its last word is the command |
| `Exec.LaunchCommand` | src/exec.rs:22-62 | only a desktop terminal entry can fail to produce a command (its template unsplittable or its vector unjoinable); a desktop app without terminal always launches a subsequence of its trimmed template |
| `Exec.TermVectorEndsWithCommand` | src/exec.rs:59 | the terminal vector exists exactly when the base vector does, and it is the base plus one final element, the stripped command |
| `Exec.BuildTermVector` | src/exec.rs:47-59 | builds the vector by precedence: the split template if configured (an unsplittable one is fatal), else `[TERM, "-e"]`, else `["alacritty", "-e"]`, then appends the command as one more word |
| `Exec.TerminalPathDefault` | src/exec.rs:54-59 | with no template and no `TERM` the vector is `alacritty -e <stripped command>` |
| `Exec.LaunchIgnoresCount` | src/exec.rs:22-28 | the launched command does not depend on the usage count, only on the template and the two flags |
| `Exec.CommandPathIsTrimOnly` | src/exec.rs:22-37 | a non-desktop entry launches its trimmed template, and flipping its terminal flag changes nothing |
| `Exec.CommandPathKeepsFieldCodes` | src/exec.rs:34-43 | on the command path `vim  %f` is launched as is, and on the app path as `vim` |
| `Exec.Launcher.ExecRaw` | src/exec.rs:66-78 | a launch adds exactly one `Launch(cmd)` effect |
| `Exec.Launcher.SaveHistory` | src/history.rs:25-32 | a save adds exactly one `Save` effect carrying the whole current map |
| `Exec.Launcher.ExecPretrimmed` | src/exec.rs:14-16 | launches the trimmed command and nothing else |
| `Exec.Launcher.ExecCommand` | src/exec.rs:34-37 | launches the trimmed template verbatim |
| `Exec.Launcher.ExecApp` | src/exec.rs:40-43 | launches the trimmed template with its field codes removed |
| `Exec.Launcher.ExecTerm` | src/exec.rs:46-64 | launches the joined terminal vector once, or launches nothing and returns the fatal error of the split or the join |
| `Exec.Launcher.Dispatch` | src/exec.rs:22-28 | runs the path the desktop and terminal flags select and launches at most one command |
| `Exec.Launcher.Execute` | src/exec.rs:18-31 | needs the key present. The entry's count rises by one, its other fields stay, and every other entry, the key set and the key order stay. On success the effects are one launch, then one save of the updated map. A fatal error adds no effect |

## Left out

- src/history.rs: finding the cache directory, creating the file, reading it
  and TOML (de)serialisation are file-system I/O and a foreign crate.
  `save_history` is modelled only as a `Save` effect carrying the map. Loading
  the history and merging it with discovered entries at startup is not part
  of this model.
- Process spawning in `exec_raw` (`setsid sh -c`, null stdio, the unreaped
  child) is I/O, modelled only as a `Launch` effect.
- Exec.Launcher.ExecRaw: does not model the spawn failing (`expect` on
  `spawn`). Every launch is assumed accepted by the operating system, so a
  failed spawn that would prevent the save is not represented.
- `shlex::split` and `shlex::try_join` are a foreign library. They are
  parameters of the model, so their exact quoting rules are not modelled.
- Exec.BuildTermVector: `TERM` is taken as a string. The `to_str().unwrap()`
  panic on a non-UTF-8 value is not modelled, and neither is reading the
  `OPTIONS` global or the environment.
- Text.Trim: whitespace is the ASCII set (space, tab, line feed, vertical
  tab, form feed, carriage return). Rust's `trim` and the regex `\s` use
  Unicode White_Space.
- Text.FieldCodeLen: a word character is ASCII `[A-Za-z0-9_]`. The regex
  crate's `\w` is Unicode-aware and also matches non-ASCII letters and digits.
- Exec.Launcher.Execute: the usage count is an unbounded `nat`. The entry
  type (src/entry.rs) is not part of this model, so the integer width and any
  overflow of `count += 1` are not modelled. A fatal error is returned as an
  outcome where the source panics. The count increment made before the
  failure stays in the in-memory map.
