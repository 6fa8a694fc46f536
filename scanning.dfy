/** The token scan of `ArgumentParser.Parse` (NeoCli/ArgumentParser.cs:47-93) as a
    specification: one step per token over an explicit state, and the scan as the fold of
    those steps that stops at the first error. The imperative parser is proved against it. */
module Scanning {
  import opened Wrappers
  import opened Text
  import opened Necessities
  import opened Commands

  /** `ArgumentParser.PREFIX`: the character that marks a command token. */
  const Prefix: char := '-'

  /** The registry: registered key to command. */
  type Registry = map<string, Command>

  /** Every registry entry carries its own registry key, as `Register` guarantees; so
      distinct keys hold distinct command objects. */
  ghost predicate KeyedByKey(commands: Registry)
  {
    forall k | k in commands :: commands[k].key == k
  }

  /** A token the loop treats as a command: its first character is the prefix. */
  predicate IsCommandToken(t: string)
  {
    |t| > 0 && t[0] == Prefix
  }

  /** A token the loop treats as a value: non-empty and not starting with the prefix. */
  predicate IsValueToken(t: string)
  {
    |t| > 0 && t[0] != Prefix
  }

  /** The error text for a command token that names no key and no alias: the whole token as given. */
  function UnrecognizedMessage(token: string): string
  {
    "Command \"" + token + "\" was not recognized. See help text for command list."
  }

  /** The error text for a mutual-exclusion conflict: the new command's key string, then the excluded one's. */
  function ExclusiveMessage(keyString: string, otherKeyString: string): string
  {
    "The commands \"" + keyString + "\" and \"" + otherKeyString + "\" are mutually exclusive."
  }

  /** The error text for a value token before any command token. */
  function UnexpectedMessage(token: string): string
  {
    "Unexpected value \"" + token + "\". Did you miss a command?"
  }

  /** The error text for a value token after a command whose necessity is `None`. */
  function NotAllowedMessage(keyString: string): string
  {
    "The command \"" + keyString + "\" does not allow parameters."
  }

  /** The error text for an encountered `Required` command that collected no value. */
  function MissingMessage(keyString: string): string
  {
    "The command \"" + keyString + "\" is missing required parameters."
  }

  /** At most one registered command has `name` as its alias (otherwise `SingleOrDefault` throws). */
  ghost predicate AliasUnique(commands: Registry, name: string)
  {
    forall k1, k2 | k1 in commands && k2 in commands
                    && commands[k1].alias == Val(name) && commands[k2].alias == Val(name) :: k1 == k2
  }

  /** `c` is the entry under its own key. */
  ghost predicate Registered(commands: Registry, c: Command)
  {
    c.key in commands && commands[c.key] == c
  }

  /** `values` has an entry for every registered command. */
  ghost predicate Covers(commands: Registry, values: map<Command, seq<string>>)
  {
    forall k | k in commands :: commands[k] in values
  }

  /** The lookup of a stripped token: the entry under that exact key, else the single
      entry with that exact alias, else null. */
  function Resolve(commands: Registry, name: string): (r: Command?)
    requires KeyedByKey(commands) && (name !in commands ==> AliasUnique(commands, name))
    ensures name in commands ==> r == commands[name]
    ensures name !in commands ==> (r == null <==> forall k | k in commands :: commands[k].alias != Val(name))
    ensures name !in commands && r != null ==> r.alias == Val(name) && Registered(commands, r)
  {
    if name in commands then commands[name]
    else if exists k | k in commands :: commands[k].alias == Val(name) then
      var k :| k in commands && commands[k].alias == Val(name); commands[k]
    else null
  }

  /** The error the scan can stop with, by kind, with what its message names: the
      whole token, or the commands whose key strings it shows. */
  datatype ScanError =
    | NoError
    | Unrecognized(token: string)
    | Exclusive(cmd: Command, other: Command)
    | Unexpected(token: string)
    | NotAllowed(cmd: Command)

  /** The text `Parse` stores for an error: empty exactly when there is none. */
  function Message(e: ScanError): (m: string)
    ensures m == "" <==> e == NoError
  {
    match e
    case NoError => ""
    case Unrecognized(t) => UnrecognizedMessage(t)
    case Exclusive(c, o) => ExclusiveMessage(c.KeyString(), o.KeyString())
    case Unexpected(t) => UnexpectedMessage(t)
    case NotAllowed(c) => NotAllowedMessage(c.KeyString())
  }

  /** The scan's variables: the current command, the encountered list (references into the
      registry, repetitions included), the values collected so far per command object, and
      the error. */
  datatype ScanState = ScanState(current: Command?, encountered: seq<Command>,
                                 values: map<Command, seq<string>>, error: ScanError)

  /** The current and every encountered command are registered, and every registered
      command has an entry for its values. */
  ghost predicate WellFormed(commands: Registry, st: ScanState)
  {
    && (st.current != null ==> Registered(commands, st.current))
    && (forall j | 0 <= j < |st.encountered| :: Registered(commands, st.encountered[j]))
    && Covers(commands, st.values)
  }

  /** The state before the first token, given the values the commands already hold. */
  ghost function Start(values: map<Command, seq<string>>): ScanState
  {
    ScanState(null, [], values, NoError)
  }

  /** The source does not fault on this token: it is not empty (`argument[0]`), and an
      alias lookup for it finds at most one command. */
  ghost predicate StepDefined(commands: Registry, t: string)
  {
    |t| > 0 && (IsCommandToken(t) && TrimStart(t, Prefix) !in commands ==> AliasUnique(commands, TrimStart(t, Prefix)))
  }

  /** Whether some encountered command has `key` as its key. */
  predicate AnyHasKey(cs: seq<Command>, key: string)
  {
    exists j | 0 <= j < |cs| :: cs[j].key == key
  }

  /** One iteration of the loop body for token `t`. */
  ghost function Step(commands: Registry, st: ScanState, t: string): (r: ScanState)
    requires KeyedByKey(commands) && WellFormed(commands, st) && st.error == NoError && StepDefined(commands, t)
    ensures WellFormed(commands, r)
    ensures forall c | c in st.values :: c in r.values
    ensures r.error != NoError ==> r == st.(error := r.error)
    ensures r.error == NoError && IsCommandToken(t) ==>
              var c := Resolve(commands, TrimStart(t, Prefix));
              c != null && r == st.(current := c, encountered := st.encountered + [c])
    ensures r.error == NoError && IsValueToken(t) ==>
              st.current != null && st.current.necessity != None
              && r == st.(values := st.values[st.current := st.values[st.current] + [t]])
  {
    if IsCommandToken(t) then
      var c := Resolve(commands, TrimStart(t, Prefix));
      if c == null then st.(error := Unrecognized(t))
      else if !IsNullOrWhiteSpace(c.excludes) && AnyHasKey(st.encountered, c.excludes.value) then
        ExcludedIsRegistered(commands, st.encountered, c.excludes.value);
        st.(error := Exclusive(c, commands[c.excludes.value]))
      else
        st.(current := c, encountered := st.encountered + [c])
    else if st.current == null then
      st.(error := Unexpected(t))
    else if st.current.necessity == None then
      st.(error := NotAllowed(st.current))
    else
      st.(values := st.values[st.current := st.values[st.current] + [t]])
  }

  /** An encountered command's key is a registry key (the `_commands[cmd.Excludes]` lookup cannot fail). */
  lemma ExcludedIsRegistered(commands: Registry, cs: seq<Command>, key: string)
    requires KeyedByKey(commands)
    requires forall j | 0 <= j < |cs| :: Registered(commands, cs[j])
    requires AnyHasKey(cs, key)
    ensures key in commands && commands[key].key == key
  {
    var j :| 0 <= j < |cs| && cs[j].key == key;
    assert Registered(commands, cs[j]);
  }

  /** The source runs without faulting on the tokens it reaches from `st`. */
  ghost predicate ScanDefined(commands: Registry, st: ScanState, ts: seq<string>)
    requires KeyedByKey(commands) && WellFormed(commands, st)
    decreases |ts|
  {
    ts == [] || st.error != NoError
    || (StepDefined(commands, ts[0]) && ScanDefined(commands, Step(commands, st, ts[0]), ts[1..]))
  }

  /** The loop over `ts`: steps token by token and stops at the first error. */
  ghost function Scan(commands: Registry, st: ScanState, ts: seq<string>): (r: ScanState)
    requires KeyedByKey(commands) && WellFormed(commands, st) && ScanDefined(commands, st, ts)
    ensures WellFormed(commands, r)
    ensures forall c | c in st.values :: c in r.values
    decreases |ts|
  {
    if ts == [] || st.error != NoError then st
    else Scan(commands, Step(commands, st, ts[0]), ts[1..])
  }

  /** One unfolding of the scan on a state without error. */
  lemma ScanUnfold(commands: Registry, st: ScanState, ts: seq<string>)
    requires KeyedByKey(commands) && WellFormed(commands, st) && ScanDefined(commands, st, ts)
    requires ts != [] && st.error == NoError
    ensures StepDefined(commands, ts[0])
    ensures ScanDefined(commands, Step(commands, st, ts[0]), ts[1..])
    ensures Scan(commands, st, ts) == Scan(commands, Step(commands, st, ts[0]), ts[1..])
  {
  }

  /** One folding of the scan: the converse of `ScanUnfold`. */
  lemma ScanFold(commands: Registry, st: ScanState, ts: seq<string>)
    requires KeyedByKey(commands) && WellFormed(commands, st)
    requires ts != [] && st.error == NoError && StepDefined(commands, ts[0])
    requires ScanDefined(commands, Step(commands, st, ts[0]), ts[1..])
    ensures ScanDefined(commands, st, ts)
    ensures Scan(commands, st, ts) == Scan(commands, Step(commands, st, ts[0]), ts[1..])
  {
  }

  /** The error `Parse` reports: the missing-required message for the first encountered
      command lacking required values overrides whatever the scan set. */
  function FinalError(scanError: ScanError, invalid: Command?): (r: string)
    ensures r == "" <==> scanError == NoError && invalid == null
    ensures invalid == null ==> r == Message(scanError)
  {
    if invalid != null then MissingMessage(invalid.KeyString()) else Message(scanError)
  }

  /** The error of a whole parse that started in state `st`. */
  ghost function ParseError(commands: Registry, st: ScanState, ts: seq<string>): string
    requires KeyedByKey(commands) && WellFormed(commands, st) && ScanDefined(commands, st, ts)
  {
    var r := Scan(commands, st, ts);
    FinalError(r.error, FirstMissing(r.encountered, r.values))
  }
}
