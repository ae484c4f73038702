/**
  The executor: given the key of a selected entry, bump that entry's usage
  count in the ordered entry map, decide how to launch it (plain command,
  graphical application, or application wrapped in a terminal emulator),
  launch the resulting shell command and save the whole map.

  Launching a process and writing the history file are recorded, in the
  order they happen, in a ghost trace of effects. The `--terminal-command` option and the
  `TERM` environment variable are passed in as `Options`; the shell-word
  splitting and joining functions of the `shlex` crate as `Shlex`.
 */
module Exec {
  import opened Wrappers
  import opened Text

  /** One launchable entry, as stored in the history file. */
  datatype Entry = Entry(exec: string, desktop: bool, terminal: bool, count: nat)

  /** An insertion-ordered map from entry key to entry: the key order and the entries. */
  datatype EntryMap = EntryMap(order: seq<string>, entries: map<string, Entry>) {
    /** Keys are distinct and the order lists exactly the mapped keys. */
    ghost predicate Valid() {
      && (forall i, j :: 0 <= i < j < |order| ==> order[i] != order[j])
      && (forall k :: k in entries <==> k in order)
    }
  }

  /** The configured terminal template (`--terminal-command`) and the `TERM` environment value. */
  datatype Options = Options(terminalCommand: Option<string>, term: Option<string>)

  /**
    Shell-word splitting and quoting: `split` fails on a malformed template,
    `join` fails on a word no shell quoting can carry.
   */
  datatype Shlex = Shlex(split: string -> Option<seq<string>>, join: seq<string> -> Option<string>)

  /** Errors that abort a launch. */
  datatype Fatal =
    | TerminalCommandUnparsable(template: string)
    | CommandNotJoinable

  /** An outside effect of the launcher: a detached `sh -c command`, or a write of the whole map to the history file. */
  datatype Effect = Launch(command: string) | Save(snapshot: EntryMap)

  /** Used when neither a template nor `TERM` is present. */
  const DefaultTerminal: seq<string> := ["alacritty", "-e"]

  /** The command an app or terminal entry runs: the trimmed template with every field code removed. */
  function AppCommand(exec: string): (r: string)
    ensures IsSubsequence(r, Trim(exec))
    ensures |r| <= |Trim(exec)|
  {
    StripIsSubsequence(Trim(exec));
    Strip(Trim(exec))
  }

  /** A template without any percent sign is launched as the trimmed template, unchanged. */
  lemma AppCommandWithoutPercent(exec: string)
    requires forall i :: 0 <= i < |exec| ==> exec[i] != '%'
    ensures AppCommand(exec) == Trim(exec)
  {
    TrimWithoutPercent(exec);
    StripWithoutPercent(Trim(exec));
  }

  /** The terminal vector before the command: template words, else `TERM -e`, else the default. */
  function BaseVector(opts: Options, split: string -> Option<seq<string>>): (r: Result<seq<string>, Fatal>)
    ensures r.Failure? <==> opts.terminalCommand.Some? && split(opts.terminalCommand.value).None?
    ensures r.Failure? ==> r.error == TerminalCommandUnparsable(opts.terminalCommand.value)
    ensures opts.terminalCommand.None? ==> r.Success? && |r.value| == 2 && r.value[1] == "-e"
  {
    match opts.terminalCommand
    case Some(template) =>
      (match split(template)
       case Some(words) => Success(words)
       case None => Failure(TerminalCommandUnparsable(template)))
    case None =>
      (match opts.term
       case Some(t) => Success([t, "-e"])
       case None => Success(DefaultTerminal))
  }

  /** The full terminal vector: the base vector with `cmd` as one more, final word. */
  function TermVector(cmd: string, opts: Options, split: string -> Option<seq<string>>): (r: Result<seq<string>, Fatal>)
    ensures r.Failure? ==> opts.terminalCommand.Some? && r.error.TerminalCommandUnparsable?
    ensures r.Success? ==> |r.value| >= 1 && r.value[|r.value| - 1] == cmd
  {
    match BaseVector(opts, split)
    case Success(base) => Success(base + [cmd])
    case Failure(e) => Failure(e)
  }

  /** The shell command an entry launches, chosen by its two flags alone. */
  function LaunchCommand(e: Entry, opts: Options, shlex: Shlex): (r: Result<string, Fatal>)
    ensures r.Failure? ==> e.desktop && e.terminal
    ensures r.Failure? && r.error.TerminalCommandUnparsable? ==> opts.terminalCommand.Some?
    ensures e.desktop && !e.terminal ==> r.Success? && IsSubsequence(r.value, Trim(e.exec))
  {
    if !e.desktop then Success(Trim(e.exec))
    else if !e.terminal then Success(AppCommand(e.exec))
    else
      match TermVector(AppCommand(e.exec), opts, shlex.split)
      case Failure(err) => Failure(err)
      case Success(v) =>
        (match shlex.join(v)
         case Some(c) => Success(c)
         case None => Failure(CommandNotJoinable))
  }

  /** The final word of a terminal vector is the command itself, whole, after the base vector. */
  lemma TermVectorEndsWithCommand(cmd: string, opts: Options, split: string -> Option<seq<string>>)
    ensures TermVector(cmd, opts, split).Success? <==> BaseVector(opts, split).Success?
    ensures TermVector(cmd, opts, split).Success? ==>
      var v, base := TermVector(cmd, opts, split).value, BaseVector(opts, split).value;
      |v| == |base| + 1 && v[|v| - 1] == cmd && v[..|v| - 1] == base
  {
  }

  /** The usage count plays no part in how an entry is launched. */
  lemma LaunchIgnoresCount(e: Entry, n: nat, opts: Options, shlex: Shlex)
    ensures LaunchCommand(e.(count := n), opts, shlex) == LaunchCommand(e, opts, shlex)
  {
  }

  /** A non-desktop entry takes the command path whatever its terminal flag: the trimmed template, field codes and all. */
  lemma CommandPathIsTrimOnly(e: Entry, opts: Options, shlex: Shlex)
    requires !e.desktop
    ensures LaunchCommand(e, opts, shlex) == Success(Trim(e.exec))
    ensures LaunchCommand(e.(terminal := !e.terminal), opts, shlex) == LaunchCommand(e, opts, shlex)
  {
  }

  /** A command-path entry keeps its field codes, unlike an app entry with the same template. */
  lemma CommandPathKeepsFieldCodes(opts: Options, shlex: Shlex)
    ensures LaunchCommand(Entry("vim  %f", false, false, 0), opts, shlex) == Success("vim  %f")
    ensures LaunchCommand(Entry("vim  %f", true, false, 0), opts, shlex) == Success("vim")
  {
    TrimUnique([], "vim  %f", []);
    assert [] + "vim  %f" + [] == "vim  %f";
    StripTakesWholeSpaceRun();
  }

  /** A terminal entry with no template and no `TERM` runs in alacritty, the command as one word. */
  lemma TerminalPathDefault(e: Entry, shlex: Shlex)
    requires e.desktop && e.terminal
    ensures TermVector(AppCommand(e.exec), Options(None, None), shlex.split)
         == Success(["alacritty", "-e", AppCommand(e.exec)])
  {
    assert DefaultTerminal + [AppCommand(e.exec)] == ["alacritty", "-e", AppCommand(e.exec)];
  }

  /**
    `exec_term`'s vector, built step by step: start empty; extend it with the
    split template, or replace it with `[TERM, "-e"]` or the default; then
    push the command.
   */
  method BuildTermVector(cmd: string, opts: Options, split: string -> Option<seq<string>>)
    returns (r: Result<seq<string>, Fatal>)
    ensures opts.terminalCommand.Some? && split(opts.terminalCommand.value).None? ==>
      r == Failure(TerminalCommandUnparsable(opts.terminalCommand.value))
    ensures opts.terminalCommand.Some? && split(opts.terminalCommand.value).Some? ==>
      r == Success(split(opts.terminalCommand.value).value + [cmd])
    ensures opts.terminalCommand.None? && opts.term.Some? ==> r == Success([opts.term.value, "-e", cmd])
    ensures opts.terminalCommand.None? && opts.term.None? ==> r == Success(["alacritty", "-e", cmd])
    ensures r == TermVector(cmd, opts, split)
  {
    var termCmd: seq<string> := [];
    match opts.terminalCommand {
      case Some(template) =>
        match split(template) {
          case None =>
            return Failure(TerminalCommandUnparsable(template));
          case Some(words) =>
            termCmd := termCmd + words;
            assert termCmd == words;
        }
      case None =>
        match opts.term {
          case Some(t) => termCmd := [t, "-e"];
          case None => termCmd := DefaultTerminal;
        }
    }
    ghost var base := termCmd;
    termCmd := termCmd + [cmd];
    assert termCmd == base + [cmd];
    assert base == DefaultTerminal ==> termCmd == ["alacritty", "-e", cmd];
    assert opts.terminalCommand.None? && opts.term.Some? ==> termCmd == [opts.term.value, "-e", cmd];
    r := Success(termCmd);
  }

  /**
    The launcher's state: the live entry map and the effects performed so far.
   */
  class Launcher {
    var history: EntryMap
    ghost var effects: seq<Effect>

    ghost predicate Valid()
      reads this
    {
      history.Valid()
    }

    constructor (loaded: EntryMap)
      requires loaded.Valid()
      ensures Valid()
      ensures history == loaded && effects == []
    {
      history := loaded;
      effects := [];
    }

    /** Spawns `sh -c cmd` detached from the launcher. */
    method ExecRaw(cmd: string)
      modifies this`effects
      ensures effects == old(effects) + [Launch(cmd)]
    {
      effects := effects + [Launch(cmd)];
    }

    /** Writes the whole current map to the history file. */
    method SaveHistory()
      modifies this`effects
      ensures effects == old(effects) + [Save(history)]
    {
      effects := effects + [Save(history)];
    }

    /** Runs a command the user typed, trimmed. */
    method ExecPretrimmed(cmd: string)
      modifies this`effects
      ensures effects == old(effects) + [Launch(Trim(cmd))]
    {
      ExecRaw(Trim(cmd));
    }

    /** Command path: the trimmed template, no field-code removal. */
    method ExecCommand(e: Entry)
      modifies this`effects
      ensures effects == old(effects) + [Launch(Trim(e.exec))]
    {
      var cmd := Trim(e.exec);
      ExecRaw(cmd);
    }

    /** App path: the trimmed template with its field codes removed. */
    method ExecApp(e: Entry)
      modifies this`effects
      ensures effects == old(effects) + [Launch(AppCommand(e.exec))]
    {
      var cmd := Trim(e.exec);
      ExecRaw(Strip(cmd));
    }

    /** Terminal path: the app command as the last word of the terminal vector, joined into one shell line. */
    method ExecTerm(e: Entry, opts: Options, shlex: Shlex) returns (r: Outcome<Fatal>)
      modifies this`effects
      ensures match TermVector(AppCommand(e.exec), opts, shlex.split)
        case Failure(err) => r == Fail(err) && effects == old(effects)
        case Success(v) =>
          (match shlex.join(v)
           case None => r == Fail(CommandNotJoinable) && effects == old(effects)
           case Some(c) => r == Pass && effects == old(effects) + [Launch(c)])
    {
      var cmd := AppCommand(e.exec);
      var termCmd := BuildTermVector(cmd, opts, shlex.split);
      if termCmd.Failure? {
        return Fail(termCmd.error);
      }
      var command := shlex.join(termCmd.value);
      if command.None? {
        return Fail(CommandNotJoinable);
      }
      ExecRaw(command.value);
      r := Pass;
    }

    /** Launches `e` by the path its two flags select. */
    method Dispatch(e: Entry, opts: Options, shlex: Shlex) returns (r: Outcome<Fatal>)
      modifies this`effects
      ensures match LaunchCommand(e, opts, shlex)
        case Success(cmd) => r == Pass && effects == old(effects) + [Launch(cmd)]
        case Failure(err) => r == Fail(err) && effects == old(effects)
    {
      if !e.desktop {
        ExecCommand(e);
      } else if !e.terminal {
        ExecApp(e);
      } else {
        r := ExecTerm(e, opts, shlex);
        return;
      }
      r := Pass;
    }

    /**
      Launches the entry under `key`. Its count goes up by one before anything
      else; every other entry, the key set and the key order stay as they
      were. On success exactly one command is launched and then the whole
      updated map is saved once; a fatal error launches and saves nothing.
     */
    method Execute(key: string, opts: Options, shlex: Shlex) returns (r: Outcome<Fatal>)
      requires Valid()
      requires key in history.entries
      modifies this
      ensures Valid()
      ensures history.order == old(history.order)
      ensures history.entries.Keys == old(history.entries.Keys)
      ensures forall k :: k in old(history.entries) && k != key ==> history.entries[k] == old(history.entries[k])
      ensures history.entries[key].count == old(history.entries[key].count) + 1
      ensures history.entries[key].exec == old(history.entries[key].exec)
      ensures history.entries[key].desktop == old(history.entries[key].desktop)
      ensures history.entries[key].terminal == old(history.entries[key].terminal)
      ensures match LaunchCommand(old(history.entries[key]), opts, shlex)
        case Success(cmd) => r == Pass && effects == old(effects) + [Launch(cmd), Save(history)]
        case Failure(err) => r == Fail(err) && effects == old(effects)
    {
      var entry := history.entries[key];
      entry := entry.(count := entry.count + 1);
      history := history.(entries := history.entries[key := entry]);
      assert history.entries.Keys == old(history.entries.Keys);
      LaunchIgnoresCount(entry, old(history.entries[key].count), opts, shlex);

      r := Dispatch(entry, opts, shlex);
      if r.Pass? {
        SaveHistory();
      }
    }
  }
}
