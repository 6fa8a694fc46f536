/** The behaviours the parser promises for particular inputs: each error outcome, the
    one-directional exclusion, a repeated flag, lookup through an alias. */
module Scenarios {
  import opened Wrappers
  import opened Text
  import opened Necessities
  import opened Commands
  import opened CommandCollections
  import opened Scanning
  import opened ScanProperties

  /** `c` is the registry entry under its own key, and that key does not start with the prefix. */
  ghost predicate RegisteredFlag(commands: Registry, c: Command)
  {
    c.key in commands && commands[c.key] == c && (c.key == [] || c.key[0] != Prefix)
  }

  /** The step for the flag of a registered command whose exclusion does not fire. */
  lemma StepFlag(commands: Registry, st: ScanState, c: Command)
    requires KeyedByKey(commands) && WellFormed(commands, st) && st.error == NoError
    requires RegisteredFlag(commands, c)
    requires IsNullOrWhiteSpace(c.excludes) || !AnyHasKey(st.encountered, c.excludes.value)
    ensures StepDefined(commands, Flag(c.key))
    ensures Step(commands, st, Flag(c.key)) == st.(current := c, encountered := st.encountered + [c])
  {
    FlagResolves(c.key);
  }

  /** The step for the flag of a registered command whose exclusion fires. */
  lemma StepFlagExcluded(commands: Registry, st: ScanState, c: Command)
    requires KeyedByKey(commands) && WellFormed(commands, st) && st.error == NoError
    requires RegisteredFlag(commands, c)
    requires !IsNullOrWhiteSpace(c.excludes) && AnyHasKey(st.encountered, c.excludes.value)
    ensures StepDefined(commands, Flag(c.key))
    ensures c.excludes.value in commands
    ensures Step(commands, st, Flag(c.key))
            == st.(error := Exclusive(c, commands[c.excludes.value]))
  {
    FlagResolves(c.key);
    ExcludedIsRegistered(commands, st.encountered, c.excludes.value);
  }

  /** The step for a value token after a command that takes values. */
  lemma StepValue(commands: Registry, st: ScanState, x: string)
    requires KeyedByKey(commands) && WellFormed(commands, st) && st.error == NoError
    requires IsValueToken(x) && st.current != null && st.current.necessity != None
    ensures StepDefined(commands, x)
    ensures Step(commands, st, x) == st.(values := st.values[st.current := st.values[st.current] + [x]])
  {
  }

  /** A value token before any command token is reported as unexpected, naming that token,
      and the post-scan check has nothing to override it with. */
  lemma ValueBeforeAnyCommand(commands: Registry, v: map<Command, seq<string>>, ts: seq<string>)
    requires KeyedByKey(commands) && Covers(commands, v)
    requires ts != [] && IsValueToken(ts[0])
    ensures ScanDefined(commands, Start(v), ts)
    ensures Scan(commands, Start(v), ts).encountered == []
    ensures ParseError(commands, Start(v), ts) == UnexpectedMessage(ts[0])
  {
    ScanFold(commands, Start(v), ts);
  }

  /** An unregistered flag is reported as not recognized, with the whole token as given,
      wherever it stands: the scan keeps what the tokens before it gave and ignores the rest. */
  lemma UnknownFlag(commands: Registry, st: ScanState, a: seq<string>, t: string, b: seq<string>)
    requires KeyedByKey(commands) && WellFormed(commands, st) && st.error == NoError
    requires ScanDefined(commands, st, a) && Scan(commands, st, a).error == NoError
    requires IsCommandToken(t) && TrimStart(t, Prefix) !in commands
    requires forall k | k in commands :: commands[k].alias != Val(TrimStart(t, Prefix))
    ensures StepDefined(commands, t)
    ensures Step(commands, Scan(commands, st, a), t) == Scan(commands, st, a).(error := Unrecognized(t))
    ensures ScanDefined(commands, st, a + [t] + b)
    ensures Scan(commands, st, a + [t] + b) == Scan(commands, st, a).(error := Unrecognized(t))
  {
    var s1 := Scan(commands, st, a);
    UnknownFlagStep(commands, s1, t);
    var s2 := s1.(error := Unrecognized(t));
    assert ScanDefined(commands, s2, b) && Scan(commands, s2, b) == s2;
    assert ([t] + b)[0] == t && ([t] + b)[1..] == b;
    ScanFold(commands, s1, [t] + b);
    ScanAppend(commands, st, a, [t] + b);
    Regroup(a, [t], b);
  }

  /** The step for an unregistered flag only records that it was not recognized. */
  lemma UnknownFlagStep(commands: Registry, st: ScanState, t: string)
    requires KeyedByKey(commands) && WellFormed(commands, st) && st.error == NoError
    requires IsCommandToken(t) && TrimStart(t, Prefix) !in commands
    requires forall k | k in commands :: commands[k].alias != Val(TrimStart(t, Prefix))
    ensures StepDefined(commands, t)
    ensures Step(commands, st, t) == st.(error := Unrecognized(t))
  {
  }

  /** A value token right after a command that allows none is rejected, naming that command,
      whatever tokens precede or follow. */
  lemma ValueAfterNoneCommand(commands: Registry, st: ScanState, a: seq<string>, t: string, x: string, b: seq<string>)
    requires KeyedByKey(commands) && WellFormed(commands, st) && st.error == NoError
    requires ScanDefined(commands, st, a) && Scan(commands, st, a).error == NoError
    requires IsCommandToken(t) && StepDefined(commands, t)
    requires Step(commands, Scan(commands, st, a), t).error == NoError
    requires Step(commands, Scan(commands, st, a), t).current.necessity == None
    requires IsValueToken(x)
    ensures ScanDefined(commands, st, a + [t, x] + b)
    ensures Scan(commands, st, a + [t, x] + b).error
              == NotAllowed(Step(commands, Scan(commands, st, a), t).current)
  {
    var s1 := Scan(commands, st, a);
    var s2 := Step(commands, s1, t);
    ScanFold(commands, s2, [x] + b);
    assert ([t, x] + b)[1..] == [x] + b;
    ScanFold(commands, s1, [t, x] + b);
    ScanAppend(commands, st, a, [t, x] + b);
    Regroup(a, [t, x], b);
  }

  /** Exclusion is checked only from the command that declares it: when `a` excludes `b`
      and `b` does not exclude `a`, giving `a` and then `b` raises no error. */
  lemma ExcluderFirstPasses(commands: Registry, v: map<Command, seq<string>>, a: Command, b: Command)
    requires KeyedByKey(commands) && Covers(commands, v)
    requires RegisteredFlag(commands, a) && RegisteredFlag(commands, b) && a.key != b.key
    requires a.excludes == Val(b.key) && (IsNullOrWhiteSpace(b.excludes) || b.excludes.value != a.key)
    ensures ScanDefined(commands, Start(v), [Flag(a.key), Flag(b.key)])
    ensures Scan(commands, Start(v), [Flag(a.key), Flag(b.key)]).error == NoError
    ensures Scan(commands, Start(v), [Flag(a.key), Flag(b.key)]).encountered == [a, b]
  {
    var fa, fb := Flag(a.key), Flag(b.key);
    var sa := ScanState(a, [a], v, NoError);
    StepFlag(commands, Start(v), a);
    assert Step(commands, Start(v), fa) == sa;
    assert sa.encountered[0].key == a.key;
    assert !IsNullOrWhiteSpace(b.excludes) ==> !AnyHasKey(sa.encountered, b.excludes.value);
    StepFlag(commands, sa, b);
    var sab := ScanState(b, [a, b], v, NoError);
    assert Step(commands, sa, fb) == sab;
    ScanFold(commands, sa, [fb]);
    assert [fa, fb][1..] == [fb];
    ScanFold(commands, Start(v), [fa, fb]);
  }

  /** ... while giving `b` and then `a` is rejected, naming `a` first. */
  lemma ExcluderSecondFails(commands: Registry, v: map<Command, seq<string>>, a: Command, b: Command)
    requires KeyedByKey(commands) && Covers(commands, v)
    requires RegisteredFlag(commands, a) && RegisteredFlag(commands, b) && a.key != b.key
    requires a.excludes == Val(b.key) && !IsNullOrWhiteSpace(a.excludes)
    ensures ScanDefined(commands, Start(v), [Flag(b.key), Flag(a.key)])
    ensures Scan(commands, Start(v), [Flag(b.key), Flag(a.key)]).error == Exclusive(a, b)
  {
    var fb, fa := Flag(b.key), Flag(a.key);
    var sb := ScanState(b, [b], v, NoError);
    StepFlag(commands, Start(v), b);
    assert Step(commands, Start(v), fb) == sb;
    assert sb.encountered[0].key == b.key;
    assert AnyHasKey(sb.encountered, a.excludes.value);
    StepFlagExcluded(commands, sb, a);
    var se := sb.(error := Exclusive(a, b));
    assert Step(commands, sb, fa) == se;
    ScanFold(commands, sb, [fa]);
    assert [fb, fa][1..] == [fa];
    ScanFold(commands, Start(v), [fb, fa]);
  }

  /** A flag given twice puts the same command object into the encountered list twice, and
      that one object collects the values from both places. */
  lemma RepeatedFlagSharesCommand(commands: Registry, v: map<Command, seq<string>>, c: Command, x: string, y: string)
    requires KeyedByKey(commands) && Covers(commands, v)
    requires RegisteredFlag(commands, c) && c.necessity != None && c.excludes != Val(c.key)
    requires IsValueToken(x) && IsValueToken(y)
    ensures ScanDefined(commands, Start(v), [Flag(c.key), x, Flag(c.key), y])
    ensures Scan(commands, Start(v), [Flag(c.key), x, Flag(c.key), y]).error == NoError
    ensures Scan(commands, Start(v), [Flag(c.key), x, Flag(c.key), y]).encountered == [c, c]
    ensures Scan(commands, Start(v), [Flag(c.key), x, Flag(c.key), y]).values[c] == v[c] + [x, y]
  {
    var f := Flag(c.key);
    var s1 := ScanState(c, [c], v, NoError);
    StepFlag(commands, Start(v), c);
    assert Step(commands, Start(v), f) == s1;
    var s2 := ScanState(c, [c], v[c := v[c] + [x]], NoError);
    StepValue(commands, s1, x);
    var s3 := ScanState(c, [c, c], v[c := v[c] + [x]], NoError);
    StepFlag(commands, s2, c);
    assert Step(commands, s2, f) == s3;
    var s4 := ScanState(c, [c, c], v[c := v[c] + [x] + [y]], NoError);
    StepValue(commands, s3, y);
    assert v[c] + [x] + [y] == v[c] + [x, y];
    assert Step(commands, s3, y) == s4;
    ScanFold(commands, s3, [y]);
    assert [f, y][1..] == [y];
    ScanFold(commands, s2, [f, y]);
    assert [x, f, y][1..] == [f, y];
    ScanFold(commands, s1, [x, f, y]);
    assert [f, x, f, y][1..] == [x, f, y];
    ScanFold(commands, Start(v), [f, x, f, y]);
  }

  /** A command given through its alias is the command found in the result both by its
      key and by that alias. */
  lemma AliasLookupRoundTrip(commands: Registry, v: map<Command, seq<string>>, c: Command, doc: string)
    requires KeyedByKey(commands) && Covers(commands, v)
    requires c.key in commands && commands[c.key] == c
    requires c.alias.Val? && c.alias.value !in commands && AliasUnique(commands, c.alias.value)
    requires c.alias.value == [] || c.alias.value[0] != Prefix
    ensures ScanDefined(commands, Start(v), [Flag(c.alias.value)])
    ensures Scan(commands, Start(v), [Flag(c.alias.value)]).error == NoError
    ensures Scan(commands, Start(v), [Flag(c.alias.value)]).encountered == [c]
    ensures CommandCollection([c], doc).Get(c.key) == c
    ensures CommandCollection([c], doc).Get(c.alias.value) == c
  {
    var f := Flag(c.alias.value);
    AliasStep(commands, Start(v), c);
    assert Start(v).encountered + [c] == [c];
    ScanFold(commands, Start(v), [f]);
    assert Scan(commands, Start(v), [f]) == ScanState(c, [c], v, NoError);
    GetSingle(c, doc, c.key);
    GetSingle(c, doc, c.alias.value);
  }

  /** The step for the flag of a command's alias, when no key is that alias and the
      command's exclusion does not fire, at any point of the scan. */
  lemma AliasStep(commands: Registry, st: ScanState, c: Command)
    requires KeyedByKey(commands) && WellFormed(commands, st) && st.error == NoError
    requires c.key in commands && commands[c.key] == c
    requires c.alias.Val? && c.alias.value !in commands && AliasUnique(commands, c.alias.value)
    requires c.alias.value == [] || c.alias.value[0] != Prefix
    requires IsNullOrWhiteSpace(c.excludes) || !AnyHasKey(st.encountered, c.excludes.value)
    ensures StepDefined(commands, Flag(c.alias.value))
    ensures Step(commands, st, Flag(c.alias.value)) == st.(current := c, encountered := st.encountered + [c])
  {
    var n := c.alias.value;
    FlagResolves(n);
    var r := Resolve(commands, n);
    assert r != null && Registered(commands, r);
    assert commands[r.key].alias == Val(n) && commands[c.key].alias == Val(n);
    assert r == c;
  }

  /** In a one-entry collection, a name of that entry finds it. */
  lemma GetSingle(c: Command, doc: string, key: string)
    requires Names(c, key)
    ensures CommandCollection([c], doc).Get(key) == c
  {
  }

  /** A lone command that lacks its required values is the first missing one. */
  lemma FirstMissingSingle(c: Command, values: map<Command, seq<string>>)
    requires LacksRequired(c, values)
    ensures FirstMissing([c], values) == c
  {
  }

  /** A `Required` command given without a value is reported as missing its parameters,
      even though the scan itself found no error. */
  lemma RequiredWithoutValue(commands: Registry, v: map<Command, seq<string>>, c: Command)
    requires KeyedByKey(commands) && Covers(commands, v)
    requires RegisteredFlag(commands, c) && c.necessity == Required && v[c] == []
    ensures ScanDefined(commands, Start(v), [Flag(c.key)])
    ensures Scan(commands, Start(v), [Flag(c.key)]).error == NoError
    ensures ParseError(commands, Start(v), [Flag(c.key)]) == MissingMessage(c.KeyString())
  {
    var f := Flag(c.key);
    var s1 := ScanState(c, [c], v, NoError);
    StepFlag(commands, Start(v), c);
    assert Step(commands, Start(v), f) == s1;
    ScanFold(commands, Start(v), [f]);
    assert Scan(commands, Start(v), [f]) == s1;
    FirstMissingSingle(c, v);
  }

  /** The post-scan check overrides a scan error: a `Required` command that collected
      nothing before the scan stopped is reported instead of the scan's own error. */
  lemma MissingOverridesScanError(commands: Registry, v: map<Command, seq<string>>, c: Command, t: string)
    requires KeyedByKey(commands) && Covers(commands, v)
    requires RegisteredFlag(commands, c) && c.necessity == Required && v[c] == []
    requires IsCommandToken(t) && TrimStart(t, Prefix) !in commands
    requires forall k | k in commands :: commands[k].alias != Val(TrimStart(t, Prefix))
    ensures ScanDefined(commands, Start(v), [Flag(c.key), t])
    ensures Scan(commands, Start(v), [Flag(c.key), t]).error == Unrecognized(t)
    ensures ParseError(commands, Start(v), [Flag(c.key), t]) == MissingMessage(c.KeyString())
  {
    var f := Flag(c.key);
    var s1 := ScanState(c, [c], v, NoError);
    StepFlag(commands, Start(v), c);
    assert Step(commands, Start(v), f) == s1;
    var s2 := s1.(error := Unrecognized(t));
    assert Step(commands, s1, t) == s2;
    ScanFold(commands, s1, [t]);
    assert [f, t][1..] == [t];
    ScanFold(commands, Start(v), [f, t]);
    assert Scan(commands, Start(v), [f, t]) == s2;
    FirstMissingSingle(c, v);
  }
}
