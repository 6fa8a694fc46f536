/** The builder and parser (NeoCli/ArgumentParser.cs). */
module Parsers {
  import opened Wrappers
  import opened Text
  import opened Necessities
  import opened Commands
  import opened CommandCollections
  import opened Scanning

  /** `Environment.NewLine`, fixed here to the Unix value. */
  const NewLine: string := "\n"

  /** The help lines of the registry, in registry order: one `DocumentationString` for each
      command that has help text. */
  function HelpLines(order: seq<string>, commands: Registry): seq<string>
    requires forall i | 0 <= i < |order| :: order[i] in commands
  {
    if order == [] then []
    else (if commands[order[0]].HasHelpText() then [commands[order[0]].DocumentationString()] else [])
         + HelpLines(order[1..], commands)
  }

  /** The generated documentation: name, description and help lines, joined by newlines. */
  function Documentation(appName: string, appDescription: string, order: seq<string>, commands: Registry): string
    requires forall i | 0 <= i < |order| :: order[i] in commands
  {
    Join(NewLine, [appName, appDescription] + HelpLines(order, commands))
  }

  /** The documentation is the name, then the description on its own line, then each help
      line on its own line. */
  lemma DocumentationLayout(appName: string, appDescription: string, order: seq<string>, commands: Registry)
    requires forall i | 0 <= i < |order| :: order[i] in commands
    ensures Documentation(appName, appDescription, order, commands)
            == appName + NewLine + appDescription + Prefixed(NewLine, HelpLines(order, commands))
  {
    var lines := HelpLines(order, commands);
    var parts := [appName, appDescription] + lines;
    JoinIsFirstThenPrefixed(NewLine, parts);
    assert parts[1..] == [appDescription] + lines;
    assert ([appDescription] + lines)[1..] == lines;
  }

  /** The command registered `i`-th has help text and `line` is its documentation string. */
  ghost predicate DocumentedAt(order: seq<string>, commands: Registry, i: int, line: string)
  {
    0 <= i < |order| && order[i] in commands
    && commands[order[i]].HasHelpText() && commands[order[i]].DocumentationString() == line
  }

  /** A line is a help line exactly when it is the documentation string of some registered
      command that has help text. */
  lemma HelpLineOf(order: seq<string>, commands: Registry, line: string)
    requires forall i | 0 <= i < |order| :: order[i] in commands
    ensures line in HelpLines(order, commands) <==> exists i :: DocumentedAt(order, commands, i, line)
  {
    if line in HelpLines(order, commands) {
      HelpLineSound(order, commands, line);
    }
    if exists i :: DocumentedAt(order, commands, i, line) {
      var i :| DocumentedAt(order, commands, i, line);
      HelpLineComplete(order, commands, i, line);
    }
  }

  /** Every help line is the documentation string of some registered command with help text. */
  lemma {:induction false} HelpLineSound(order: seq<string>, commands: Registry, line: string)
    requires forall i | 0 <= i < |order| :: order[i] in commands
    requires line in HelpLines(order, commands)
    ensures exists i :: DocumentedAt(order, commands, i, line)
  {
    if !DocumentedAt(order, commands, 0, line) {
      HelpLineSound(order[1..], commands, line);
      var i :| DocumentedAt(order[1..], commands, i, line);
      assert DocumentedAt(order, commands, i + 1, line);
    }
  }

  /** The documentation string of a registered command with help text is a help line. */
  lemma {:induction false} HelpLineComplete(order: seq<string>, commands: Registry, i: int, line: string)
    requires forall i | 0 <= i < |order| :: order[i] in commands
    requires DocumentedAt(order, commands, i, line)
    ensures line in HelpLines(order, commands)
  {
    if i > 0 {
      assert DocumentedAt(order[1..], commands, i - 1, line);
      HelpLineComplete(order[1..], commands, i - 1, line);
    }
  }

  /** At most one help line per registered command, and exactly one each when they all have
      help text. */
  lemma {:induction false} HelpLinesCount(order: seq<string>, commands: Registry)
    requires forall i | 0 <= i < |order| :: order[i] in commands
    ensures |HelpLines(order, commands)| <= |order|
    ensures (forall i | 0 <= i < |order| :: commands[order[i]].HasHelpText()) ==> |HelpLines(order, commands)| == |order|
  {
    if order != [] {
      HelpLinesCount(order[1..], commands);
      if forall i | 0 <= i < |order| :: commands[order[i]].HasHelpText() {
        assert forall i | 0 <= i < |order[1..]| :: order[1..][i] == order[i + 1];
      }
    }
  }

  class ArgumentParser {
    const args: seq<string>
    const appName: string
    const appDescription: string
    /** The registry's keys in the order they were first registered. */
    var order: seq<string>
    var commands: Registry

    /** Every registry entry carries its own key, and `order` lists each registry key exactly once. */
    ghost predicate Valid()
      reads this
    {
      && KeyedByKey(commands)
      && (forall i | 0 <= i < |order| :: order[i] in commands)
      && (forall k | k in commands :: k in order)
      && (forall i, j | 0 <= i < j < |order| :: order[i] != order[j])
    }

    /** What every registered command currently holds. */
    ghost function ValuesMap(): (m: map<Command, seq<string>>)
      reads this, commands.Values
      ensures m.Keys == commands.Values
      ensures Covers(commands, m)
    {
      map c | c in commands.Values :: c.values
    }

    constructor (args: seq<string>, appName: string, appDescription: string)
      ensures Valid()
      ensures this.args == args && this.appName == appName && this.appDescription == appDescription
      ensures commands == map[] && order == []
    {
      this.args := args;
      this.appName := appName;
      this.appDescription := appDescription;
      order := [];
      commands := map[];
    }

    /** Puts a fresh command with no values under `key`, replacing any earlier one there
        (which keeps its place in the order), and returns the parser itself. */
    method Register(key: string, alias: Nullable<string> := Null, helpText: Nullable<string> := Null,
                    exclude: Nullable<string> := Null, necessity: Necessity := None)
      returns (self: ArgumentParser)
      requires Valid()
      modifies this
      ensures Valid() && self == this
      ensures commands.Keys == old(commands.Keys) + {key}
      ensures fresh(commands[key])
      ensures commands[key].key == key && commands[key].alias == alias && commands[key].helpText == helpText
      ensures commands[key].excludes == exclude && commands[key].necessity == necessity
      ensures commands[key].values == []
      ensures forall k | k in old(commands) && k != key :: commands[k] == old(commands[k])
      ensures order == if key in old(commands) then old(order) else old(order) + [key]
    {
      var c := new Command(key, alias, helpText, exclude, necessity);
      if key !in commands {
        order := order + [key];
      }
      commands := commands[key := c];
      self := this;
    }

    /** Scans `args` against the registry, appending value tokens to the registered commands
        themselves; returns the encountered commands with the documentation, and the error. */
    method Parse() returns (result: CommandCollection, error: string)
      requires Valid()
      requires ScanDefined(commands, Start(ValuesMap()), args)
      modifies commands.Values
      ensures Valid()
      ensures var r := Scan(commands, Start(old(ValuesMap())), args);
              && result.parsedArgs == r.encountered
              && Holds(r.values)
              && error == FinalError(r.error, FirstMissing(r.encountered, r.values))
      ensures result.documentation == Documentation(appName, appDescription, order, commands)
    {
      var cmds;
      ghost var r;
      cmds, error, r := ScanArgs();
      var invalidCmd := MissingCheck(cmds, r.values);
      if invalidCmd != null {
        error := MissingMessage(invalidCmd.KeyString());
      }
      var doc := Documentation(appName, appDescription, order, commands);
      result := CommandCollection(cmds, doc);
    }

    /** Every registered command holds what `values` gives for it. */
    ghost predicate Holds(values: map<Command, seq<string>>)
      reads this, commands.Values
    {
      forall k | k in commands :: commands[k] in values && commands[k].values == values[commands[k]]
    }

    /** The post-scan check (NeoCli/ArgumentParser.cs:92) on the values the commands now hold. */
    method MissingCheck(cmds: seq<Command>, ghost values: map<Command, seq<string>>) returns (invalid: Command?)
      requires forall j | 0 <= j < |cmds| :: Registered(commands, cmds[j])
      requires Holds(values)
      ensures invalid == FirstMissing(cmds, values)
    {
      assert forall c | c in cmds :: c.key in commands && commands[c.key] == c;
      invalid := FirstMissing(cmds, map c | c in cmds :: c.values);
      FirstMissingReadsListed(cmds, map c | c in cmds :: c.values, values);
    }

    /** The loop of `Parse` (NeoCli/ArgumentParser.cs:49-90): returns the encountered list
        and the scan's error, and leaves every command holding what the scan collected. */
    method ScanArgs() returns (cmds: seq<Command>, error: string, ghost r: ScanState)
      requires Valid()
      requires ScanDefined(commands, Start(ValuesMap()), args)
      modifies commands.Values
      ensures r == Scan(commands, Start(old(ValuesMap())), args)
      ensures cmds == r.encountered && error == Message(r.error) && Holds(r.values)
    {
      error := "";
      var cmd: Command? := null;
      cmds := [];
      ghost var st := Start(ValuesMap());
      ghost var st0 := st;
      var i := 0;
      while i < |args|
        invariant 0 <= i <= |args|
        invariant WellFormed(commands, st) && st.error == NoError && error == ""
        invariant ScanDefined(commands, st, args[i..])
        invariant Scan(commands, st, args[i..]) == Scan(commands, st0, args)
        invariant cmd == st.current && cmds == st.encountered
        invariant Holds(st.values)
      {
        ScanUnfold(commands, st, args[i..]);
        assert args[i..][1..] == args[i + 1..];
        ghost var next := Step(commands, st, args[i]);
        cmd, cmds, error := ScanToken(args[i], cmd, cmds, st);
        st, i := next, i + 1;
        if error != "" {
          break;
        }
      }
      assert Scan(commands, st, args[i..]) == st;
      r := st;
    }

    /** One iteration of the loop body (NeoCli/ArgumentParser.cs:54-89); on an error the
        loop stops, so the returned command and list are then irrelevant. */
    method ScanToken(argument: string, cmd: Command?, cmds: seq<Command>, ghost st: ScanState)
      returns (cmd': Command?, cmds': seq<Command>, error: string)
      requires Valid() && WellFormed(commands, st) && st.error == NoError
      requires cmd == st.current && cmds == st.encountered && Holds(st.values)
      requires StepDefined(commands, argument)
      modifies commands.Values
      ensures var next := Step(commands, st, argument);
              && error == Message(next.error) && Holds(next.values)
              && (error != "" ==> cmds' == cmds)
              && (error == "" ==> cmd' == next.current && cmds' == next.encountered)
    {
      cmd', cmds', error := cmd, cmds, "";
      if IsCommandToken(argument) {
        var found;
        found, error := CommandToken(argument, cmds, st);
        if error == "" {
          cmd', cmds' := found, cmds + [found];
        }
      } else if cmd == null {
        error := UnexpectedMessage(argument);
      } else if cmd.necessity == None {
        error := NotAllowedMessage(cmd.KeyString());
      } else {
        cmd.values := cmd.values + [argument];
      }
    }

    /** The command-token branch of the loop (NeoCli/ArgumentParser.cs:54-72): strips the
        prefixes, looks the key up by key and then by alias, and checks the encountered list
        against the command's exclusion. Returns the command to make current, or the error. */
    method CommandToken(argument: string, cmds: seq<Command>, ghost st: ScanState)
      returns (cmd: Command?, error: string)
      requires Valid() && WellFormed(commands, st) && st.error == NoError && cmds == st.encountered
      requires StepDefined(commands, argument) && IsCommandToken(argument)
      ensures error == Message(Step(commands, st, argument).error)
      ensures error == "" ==> cmd != null && Step(commands, st, argument) == st.(current := cmd, encountered := cmds + [cmd])
    {
      error := "";
      var key := TrimStart(argument, Prefix);
      cmd := Resolve(commands, key);
      if cmd == null {
        error := UnrecognizedMessage(argument);
        return;
      }
      if !IsNullOrWhiteSpace(cmd.excludes) && AnyHasKey(cmds, cmd.excludes.value) {
        ExcludedIsRegistered(commands, cmds, cmd.excludes.value);
        var other := commands[cmd.excludes.value];
        error := ExclusiveMessage(cmd.KeyString(), other.KeyString());
      }
    }
  }
}
