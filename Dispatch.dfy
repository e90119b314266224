/**
 * clilib/dispatch.py: the command registry of a `Dispatcher`, the aliases
 * it reads from the configuration, the epilog listing them, and the
 * splice of a user-defined alias into the residual argument list.
 */
module Dispatch {
  import opened Wrappers
  import opened Strings
  import opened ConfigStore

  /** A class handed to `add_command`: its `__name__`, and whether it subclasses `Command`. */
  datatype CommandClass = CommandClass(name: string, isCommand: bool)

  /** The error `add_command` raises. */
  datatype DispatchError = TypeError(cmd: CommandClass)

  const HelpCommand := CommandClass("Help", true)
  const ConfigCommand := CommandClass("Config", true)

  // -------------------------------------------------------------- registry

  /** The registry a new dispatcher starts with: the built-ins its two flags ask for. */
  function InitialCommands(withHelp: bool, withConfig: bool): (r: set<CommandClass>)
    ensures HelpCommand in r <==> withHelp
    ensures ConfigCommand in r <==> withConfig
    ensures forall c :: c in r ==> c == HelpCommand || c == ConfigCommand
  {
    (if withHelp then {HelpCommand} else {}) + (if withConfig then {ConfigCommand} else {})
  }

  /** The defaults give exactly the help command; both flags off give an empty registry. */
  lemma InitialCommandsDefaults()
    ensures InitialCommands(true, false) == {HelpCommand}
    ensures InitialCommands(false, false) == {}
  {
  }

  /** `add_command`: a class that is not a command is refused, any other is inserted. */
  function Register(cmds: set<CommandClass>, cmd: CommandClass): (r: Result<set<CommandClass>, DispatchError>)
    ensures r.Failure? <==> !cmd.isCommand
    ensures r.Failure? ==> r.error == TypeError(cmd)
    ensures r.Success? ==> cmd in r.value && cmds <= r.value && r.value - cmds <= {cmd}
  {
    if !cmd.isCommand then Failure(TypeError(cmd)) else Success(cmds + {cmd})
  }

  /**
   * Registering is set insertion: adding a command already present changes
   * nothing, and adding a new one grows the registry by exactly one.
   */
  lemma RegisterInsertion(cmds: set<CommandClass>, cmd: CommandClass)
    requires cmd.isCommand
    ensures cmd in cmds ==> Register(cmds, cmd) == Success(cmds)
    ensures cmd !in cmds ==> |Register(cmds, cmd).value| == |cmds| + 1
  {
    if cmd in cmds {
      assert cmds + {cmd} == cmds;
    }
  }

  /** Registering the same command twice leaves exactly what registering it once does. */
  lemma RegisterIdempotent(cmds: set<CommandClass>, cmd: CommandClass)
    requires cmd.isCommand
    ensures Register(Register(cmds, cmd).value, cmd) == Register(cmds, cmd)
  {
  }

  /** The names commands are invoked by: each class name, lower-cased. */
  function CommandNames(cmds: set<CommandClass>): (names: set<string>)
    ensures forall c :: c in cmds ==> Lower(c.name) in names
    ensures forall n :: n in names ==> exists c :: c in cmds && Lower(c.name) == n
  {
    set c | c in cmds :: Lower(c.name)
  }

  /** Both built-ins are invoked as `help` and `config`. */
  lemma BuiltinNames()
    ensures CommandNames(InitialCommands(true, true)) == {"help", "config"}
  {
    BuiltinLower();
    var cmds := InitialCommands(true, true);
    assert cmds == {HelpCommand, ConfigCommand};
    assert CommandNames(cmds) == {Lower(HelpCommand.name), Lower(ConfigCommand.name)};
  }

  lemma BuiltinLower()
    ensures Lower(HelpCommand.name) == "help" && Lower(ConfigCommand.name) == "config"
  {
    assert Lower("Help") == "help";
    assert Lower("Config") == "config";
  }

  // --------------------------------------------------------------- aliases

  /** The tokens that end the scan for an alias: alias keys and command names. */
  predicate Stops(token: string, aliases: map<string, string>, commands: set<string>) {
    token in aliases || token in commands
  }

  /** The first index at or after `k` whose token ends the scan, or |argv|. */
  function ScanStop(argv: seq<string>, aliases: map<string, string>, commands: set<string>, k: nat): (i: nat)
    requires k <= |argv|
    ensures k <= i <= |argv|
    ensures i < |argv| ==> Stops(argv[i], aliases, commands)
    ensures forall j :: k <= j < i ==> !Stops(argv[j], aliases, commands)
    decreases |argv| - k
  {
    if k == |argv| || Stops(argv[k], aliases, commands) then k else ScanStop(argv, aliases, commands, k + 1)
  }

  /**
   * The argument list after alias processing: if the first token that is
   * an alias or a command is an alias, it is replaced by the words of its
   * expansion; otherwise the list is left as it is.
   */
  function Resolve(argv: seq<string>, aliases: map<string, string>, commands: set<string>): (out: seq<string>)
    ensures || out == argv
            || exists i :: && 0 <= i < |argv| && argv[i] in aliases
                           && (forall j :: 0 <= j < i ==> !Stops(argv[j], aliases, commands))
                           && out == argv[..i] + SplitWs(aliases[argv[i]]) + argv[i + 1..]
  {
    var i := ScanStop(argv, aliases, commands, 0);
    if i < |argv| && argv[i] in aliases then argv[..i] + SplitWs(aliases[argv[i]]) + argv[i + 1..] else argv
  }

  /**
   * The alias loop of `dispatch`: walk the tokens left to right; splice the
   * first alias in place and stop, or stop at the first command name.
   */
  method ExpandAliases(argv: seq<string>, aliases: map<string, string>, commands: set<string>) returns (out: seq<string>)
    ensures out == Resolve(argv, aliases, commands)
  {
    out := argv;
    var i := 0;
    while i < |out|
      invariant 0 <= i <= |out| && out == argv
      invariant forall j :: 0 <= j < i ==> !Stops(argv[j], aliases, commands)
    {
      if out[i] in aliases {
        ResolveAlias(argv, aliases, commands, i);
        out := out[..i] + SplitWs(aliases[out[i]]) + out[i + 1..];
        break;
      }
      if out[i] in commands {
        ResolveCommandFirst(argv, aliases, commands, i);
        break;
      }
      i := i + 1;
    }
    if i == |argv| {
      ResolveNoStop(argv, aliases, commands);
    }
  }

  /**
   * When the first alias-or-command token is an alias, that one token is
   * replaced by the words of its expansion and every other token is kept;
   * it is an alias even when it is also a command name.
   */
  lemma ResolveAlias(argv: seq<string>, aliases: map<string, string>, commands: set<string>, i: nat)
    requires i < |argv| && argv[i] in aliases
    requires forall j :: 0 <= j < i ==> !Stops(argv[j], aliases, commands)
    ensures Resolve(argv, aliases, commands) == argv[..i] + SplitWs(aliases[argv[i]]) + argv[i + 1..]
  {
    assert ScanStop(argv, aliases, commands, 0) == i;
  }

  /** A command name before any alias leaves the list unchanged, whatever aliases follow it. */
  lemma ResolveCommandFirst(argv: seq<string>, aliases: map<string, string>, commands: set<string>, i: nat)
    requires i < |argv| && argv[i] in commands && argv[i] !in aliases
    requires forall j :: 0 <= j < i ==> !Stops(argv[j], aliases, commands)
    ensures Resolve(argv, aliases, commands) == argv
  {
    assert ScanStop(argv, aliases, commands, 0) == i;
  }

  /** With no alias and no command among the tokens, nothing changes. */
  lemma ResolveNoStop(argv: seq<string>, aliases: map<string, string>, commands: set<string>)
    requires forall j :: 0 <= j < |argv| ==> !Stops(argv[j], aliases, commands)
    ensures Resolve(argv, aliases, commands) == argv
  {
  }

  /**
   * At most one splice: the words of the expansion are put in place as they
   * are, even those that are themselves alias names, and everything after
   * them is the untouched rest of the arguments.
   */
  lemma ResolveNotRescanned(argv: seq<string>, aliases: map<string, string>, commands: set<string>, i: nat)
    requires i < |argv| && argv[i] in aliases
    requires forall j :: 0 <= j < i ==> !Stops(argv[j], aliases, commands)
    ensures var w := SplitWs(aliases[argv[i]]); var out := Resolve(argv, aliases, commands);
      && |out| == |argv| - 1 + |w|
      && out[..i] == argv[..i]
      && out[i..i + |w|] == w
      && out[i + |w|..] == argv[i + 1..]
  {
    ResolveAlias(argv, aliases, commands, i);
  }

  /** `first` expands to `second`, which is an alias too but is not expanded again. */
  lemma ResolveNotRescannedExample()
    ensures Resolve(["first"], map["first" := "second", "second" := "third"], {}) == ["second"]
  {
    assert SplitWs("second") == ["second"] by {
      assert IsWord("second") by {
        forall i | 0 <= i < 6 ensures !IsSpace("second"[i]) { }
      }
      SplitWsSingle("second");
    }
    ResolveNotRescanned(["first"], map["first" := "second", "second" := "third"], {}, 0);
  }

  lemma SplitWsExpansion()
    ensures SplitWs("update --status REOPENED") == ["update", "--status", "REOPENED"]
  {
    var words := ["update", "--status", "REOPENED"];
    assert JoinWith(words, " ") == "update --status REOPENED";
    SplitWsJoin(words);
  }

  /** `reop 123` with `reop = update --status REOPENED` becomes `update --status REOPENED 123`. */
  lemma ResolveExample()
    ensures var aliases := map["reop" := "update --status REOPENED"];
      && Resolve(["reop", "123"], aliases, {"update"}) == ["update", "--status", "REOPENED", "123"]
      && Resolve(["update", "reop"], aliases, {"update"}) == ["update", "reop"]
  {
    var aliases := map["reop" := "update --status REOPENED"];
    ResolveAlias(["reop", "123"], aliases, {"update"}, 0);
    SplitWsExpansion();
    ResolveCommandFirst(["update", "reop"], aliases, {"update"}, 0);
  }

  // ---------------------------------------------------------------- epilog

  const AliasHeader := "user-defined aliases:"

  /** One line of the alias listing: four spaces, the alias left-justified in 20 columns, the target. */
  function FormatAlias(alias: string, target: string): (line: string)
    ensures var w := if |alias| < 20 then 20 else |alias|;
      && |line| == 4 + w + |target|
      && line[..4] == "    " && line[4..4 + |alias|] == alias
      && (forall i :: 4 + |alias| <= i < 4 + w ==> line[i] == ' ')
      && line[4 + w..] == target
  {
    var padded := PadRight(alias, 20);
    assert ("    " + padded + target)[4..4 + |padded|] == padded;
    "    " + padded + target
  }

  /** The listing lines for `keys`, in that order. */
  function AliasLines(keys: seq<string>, aliases: map<string, string>): (ls: seq<string>)
    requires forall k :: k in keys ==> k in aliases
    ensures |ls| == |keys| && forall i :: 0 <= i < |keys| ==> ls[i] == FormatAlias(keys[i], aliases[keys[i]])
  {
    seq(|keys|, i requires 0 <= i < |keys| => FormatAlias(keys[i], aliases[keys[i]]))
  }

  /** `Dispatcher.epilog()` for the given aliases: None without aliases, else the header and the sorted listing. */
  function AliasEpilog(aliases: map<string, string>): (r: Option<string>)
    ensures r.None? <==> |aliases| == 0
  {
    var keys := Sorted(aliases.Keys);
    if keys == [] then None
    else Some(AliasHeader + "\n" + JoinWith(AliasLines(keys, aliases), "\n"))
  }

  /** A line holds no newline, and no newline is added by formatting it. */
  lemma FormatAliasNoNewline(alias: string, target: string)
    requires '\n' !in alias && '\n' !in target
    ensures '\n' !in FormatAlias(alias, target)
  {
    var padded := PadRight(alias, 20);
    assert '\n' !in padded by {
      forall i | 0 <= i < |padded| ensures padded[i] != '\n' {
        if i < |alias| { assert padded[..|alias|][i] == alias[i]; }
      }
    }
  }

  /** The epilog is the header and the listing lines joined by newlines. */
  lemma AliasEpilogJoined(aliases: map<string, string>)
    requires |aliases| > 0
    ensures AliasEpilog(aliases) == Some(JoinWith([AliasHeader] + AliasLines(Sorted(aliases.Keys), aliases), "\n"))
  {
    var ls := AliasLines(Sorted(aliases.Keys), aliases);
    assert ([AliasHeader] + ls)[1..] == ls;
  }

  lemma AliasPartsNoNewline(keys: seq<string>, aliases: map<string, string>)
    requires forall k :: k in keys ==> k in aliases
    requires forall a :: a in aliases ==> '\n' !in a && '\n' !in aliases[a]
    ensures var parts := [AliasHeader] + AliasLines(keys, aliases);
      forall i :: 0 <= i < |parts| ==> '\n' !in parts[i]
  {
    var ls := AliasLines(keys, aliases);
    var parts := [AliasHeader] + ls;
    forall i | 0 <= i < |parts| ensures '\n' !in parts[i] {
      if i > 0 {
        assert parts[i] == ls[i - 1];
        FormatAliasNoNewline(keys[i - 1], aliases[keys[i - 1]]);
      }
    }
  }

  /**
   * When aliases and targets are single-line, the epilog's lines are the
   * header followed by one formatted line per alias, in ascending order.
   */
  lemma AliasEpilogLines(aliases: map<string, string>)
    requires |aliases| > 0
    requires forall a :: a in aliases ==> '\n' !in a && '\n' !in aliases[a]
    ensures var keys := Sorted(aliases.Keys);
      && AliasEpilog(aliases).Some?
      && Lines(AliasEpilog(aliases).value) == [AliasHeader] + AliasLines(keys, aliases)
      && StrictlySorted(keys) && forall a :: a in aliases <==> a in keys
  {
    var keys := Sorted(aliases.Keys);
    AliasEpilogJoined(aliases);
    AliasPartsNoNewline(keys, aliases);
    SplitJoinChar([AliasHeader] + AliasLines(keys, aliases), '\n');
  }

  /** Joining three lines puts one separator between each neighbouring pair. */
  lemma JoinThree(a: string, b: string, c: string, sep: string)
    ensures JoinWith([a, b, c], sep) == a + sep + b + sep + c
  {
    assert [a, b, c][1..] == [b, c] && [b, c][1..] == [c];
    assert JoinWith([b, c], sep) == b + sep + c;
    assert a + sep + (b + sep + c) == a + sep + b + sep + c;
  }

  /** Two aliases given out of order are listed in order of their names. */
  lemma AliasEpilogExample()
    ensures AliasEpilog(map["reop" := "update --status REOPENED", "close" := "update --status CLOSED"]) ==
      Some(AliasHeader + "\n"
        + FormatAlias("close", "update --status CLOSED") + "\n"
        + FormatAlias("reop", "update --status REOPENED"))
  {
    var aliases := map["reop" := "update --status REOPENED", "close" := "update --status CLOSED"];
    assert aliases.Keys == {"close", "reop"};
    SortedTwo("close", "reop");
    AliasLinesTwo("close", "reop", aliases);
    AliasEpilogJoined(aliases);
    JoinThree(AliasHeader, FormatAlias("close", aliases["close"]), FormatAlias("reop", aliases["reop"]), "\n");
  }

  lemma SortedTwo(a: string, b: string)
    requires Less(a, b)
    ensures Sorted({a, b}) == [a, b]
  {
    SortedUnique([a, b], {a, b});
  }

  lemma AliasLinesTwo(a: string, b: string, aliases: map<string, string>)
    requires a in aliases && b in aliases
    ensures AliasLines([a, b], aliases) == [FormatAlias(a, aliases[a]), FormatAlias(b, aliases[b])]
  {
  }

  // ------------------------------------------------------------ dispatcher

  /** `Dispatcher`: the registered command classes and the optional configuration. */
  class Dispatcher {
    var commands: set<CommandClass>
    const config: Store?

    /** Every registered class is a command. */
    predicate Valid()
      reads this
    {
      forall c :: c in commands ==> c.isCommand
    }

    constructor (config: Store?, withHelp: bool, withConfig: bool)
      ensures this.config == config && Valid()
      ensures commands == InitialCommands(withHelp, withConfig)
    {
      this.config := config;
      commands := {};
      new;
      if withHelp {
        var _ := AddCommand(HelpCommand);
      }
      if withConfig {
        var _ := AddCommand(ConfigCommand);
      }
    }

    /**
     * `add_command(cmd)`: the registry afterwards is the one Register
     * computes, so only commands are ever registered.
     */
    method AddCommand(cmd: CommandClass) returns (err: Option<DispatchError>)
      requires Valid()
      modifies this`commands
      ensures Register(old(commands), cmd).Failure? ==>
        err == Some(Register(old(commands), cmd).error) && commands == old(commands)
      ensures Register(old(commands), cmd).Success? ==>
        err == None && commands == Register(old(commands), cmd).value
      ensures Valid()
    {
      if !cmd.isCommand {
        return Some(TypeError(cmd));
      }
      commands := commands + {cmd};
      return None;
    }

    /** `aliases()`: the "alias" section of the configuration, or no aliases at all. */
    function Aliases(): (r: map<string, string>)
      reads this, config
      ensures config != null && config.HasSection("alias") ==> r == config.sections["alias"]
      ensures config == null || !config.HasSection("alias") ==> r == map[]
    {
      if config != null && config.HasSection("alias") then config.sections["alias"] else map[]
    }

    /** `epilog()`. */
    function Epilog(): (r: Option<string>)
      reads this, config
      ensures r.None? <==> |Aliases()| == 0
    {
      AliasEpilog(Aliases())
    }

    /** The alias step of `dispatch()` on the residual arguments, against the registered command names. */
    method ResolveArgv(argv: seq<string>) returns (out: seq<string>)
      ensures out == Resolve(argv, Aliases(), CommandNames(commands))
    {
      out := ExpandAliases(argv, Aliases(), CommandNames(commands));
    }
  }
}
