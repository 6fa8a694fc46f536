/** What the scan of `ArgumentParser.Parse` does, stated over the specification in module
    Scanning: where it stops, what it collects, which error it reports. */
module ScanProperties {
  import opened Wrappers
  import opened Text
  import opened Necessities
  import opened Commands
  import opened CommandCollections
  import opened Scanning

  /** Scanning two token lists one after the other is scanning their concatenation. */
  lemma {:induction false} ScanAppend(commands: Registry, st: ScanState, a: seq<string>, b: seq<string>)
    requires KeyedByKey(commands) && WellFormed(commands, st)
    requires ScanDefined(commands, st, a) && ScanDefined(commands, Scan(commands, st, a), b)
    ensures ScanDefined(commands, st, a + b)
    ensures Scan(commands, st, a + b) == Scan(commands, Scan(commands, st, a), b)
    decreases |a|
  {
    if a == [] {
      assert a + b == b;
    } else if st.error == NoError {
      ScanUnfold(commands, st, a);
      var next := Step(commands, st, a[0]);
      ScanAppend(commands, next, a[1..], b);
      assert (a + b)[0] == a[0] && (a + b)[1..] == a[1..] + b;
      ScanFold(commands, st, a + b);
    }
  }

  /** Once a token has raised an error, no later token is examined: whatever follows,
      the scan ends in the same state. */
  lemma ScanStopsAtError(commands: Registry, st: ScanState, a: seq<string>, b: seq<string>)
    requires KeyedByKey(commands) && WellFormed(commands, st) && ScanDefined(commands, st, a)
    requires Scan(commands, st, a).error != NoError
    ensures ScanDefined(commands, st, a + b)
    ensures Scan(commands, st, a + b) == Scan(commands, st, a)
  {
    ScanAppend(commands, st, a, b);
  }

  /** A scan that ends in an error ended at one token: the tokens before it scanned
      cleanly, and that token's step set the error and changed nothing else. */
  lemma {:induction false} ScanErrorAt(commands: Registry, st: ScanState, ts: seq<string>)
    requires KeyedByKey(commands) && WellFormed(commands, st) && ScanDefined(commands, st, ts)
    requires st.error == NoError && Scan(commands, st, ts).error != NoError
    ensures exists n | 0 <= n < |ts| ::
              && ScanDefined(commands, st, ts[..n])
              && Scan(commands, st, ts[..n]).error == NoError
              && StepDefined(commands, ts[n])
              && Scan(commands, st, ts) == Step(commands, Scan(commands, st, ts[..n]), ts[n])
    decreases |ts|
  {
    ScanUnfold(commands, st, ts);
    var next := Step(commands, st, ts[0]);
    if next.error != NoError {
      assert ts[..0] == [];
    } else {
      ScanErrorAt(commands, next, ts[1..]);
      var n :| 0 <= n < |ts[1..]| && ScanDefined(commands, next, ts[1..][..n])
               && Scan(commands, next, ts[1..][..n]).error == NoError
               && StepDefined(commands, ts[1..][n])
               && Scan(commands, next, ts[1..]) == Step(commands, Scan(commands, next, ts[1..][..n]), ts[1..][n]);
      var p := ts[..n + 1];
      PrefixTail(ts, n);
      ScanFold(commands, st, p);
      assert ts[n + 1] == ts[1..][n];
    }
  }

  /** Concatenation regrouped, kept out of larger proof contexts where it is costly. */
  lemma Regroup(a: seq<string>, m: seq<string>, b: seq<string>)
    ensures a + m + b == a + (m + b)
  {
  }

  /** The first `n + 1` tokens are the first token followed by the first `n` of the rest. */
  lemma PrefixTail(ts: seq<string>, n: nat)
    requires n < |ts|
    ensures ts[..n + 1][0] == ts[0] && ts[..n + 1][1..] == ts[1..][..n]
  {
    assert forall i | 0 <= i < n :: ts[..n + 1][1..][i] == ts[1..][..n][i];
  }

  /** The source faults on none of the tokens. */
  ghost predicate TokensDefined(commands: Registry, ts: seq<string>)
    decreases |ts|
  {
    ts == [] || (StepDefined(commands, ts[0]) && TokensDefined(commands, ts[1..]))
  }

  /** The commands the command tokens of `ts` resolve to, in input order. */
  ghost function ResolvedCommands(commands: Registry, ts: seq<string>): seq<Command?>
    requires KeyedByKey(commands)
    requires TokensDefined(commands, ts)
    decreases |ts|
  {
    if ts == [] then []
    else
      assert StepDefined(commands, ts[0]);
      (if IsCommandToken(ts[0]) then [Resolve(commands, TrimStart(ts[0], Prefix))] else [])
         + ResolvedCommands(commands, ts[1..])
  }

  /** The value tokens of `ts` that belong to `c`: those whose nearest preceding command
      token resolves to `c` (or, before the first command token, when `owner` is `c`). */
  ghost function ValuesFor(commands: Registry, owner: Command?, ts: seq<string>, c: Command): seq<string>
    requires KeyedByKey(commands)
    requires TokensDefined(commands, ts)
    decreases |ts|
  {
    if ts == [] then []
    else
      assert StepDefined(commands, ts[0]);
      if IsCommandToken(ts[0]) then ValuesFor(commands, Resolve(commands, TrimStart(ts[0], Prefix)), ts[1..], c)
    else (if owner == c then [ts[0]] else []) + ValuesFor(commands, owner, ts[1..], c)
  }

  /** The tokens that the source reaches do not fault when no token is empty and no two
      commands share an alias. */
  lemma {:induction false} ScanDefinedWhenTokensAreDefined(commands: Registry, st: ScanState, ts: seq<string>)
    requires KeyedByKey(commands) && WellFormed(commands, st)
    requires TokensDefined(commands, ts)
    ensures ScanDefined(commands, st, ts)
    decreases |ts|
  {
    if ts != [] && st.error == NoError {
      ScanDefinedWhenTokensAreDefined(commands, Step(commands, st, ts[0]), ts[1..]);
    }
  }

  /** No two registered commands share an alias. */
  ghost predicate AliasesDistinct(commands: Registry)
  {
    forall k1, k2 | k1 in commands && k2 in commands && k1 != k2 && commands[k1].alias.Val? ::
      commands[k1].alias != commands[k2].alias
  }

  /** With distinct aliases, the source faults on no non-empty token. */
  lemma {:induction false} NonEmptyTokensAreDefined(commands: Registry, ts: seq<string>)
    requires AliasesDistinct(commands)
    requires forall i | 0 <= i < |ts| :: |ts[i]| > 0
    ensures TokensDefined(commands, ts)
    decreases |ts|
  {
    if ts != [] {
      assert |ts[0]| > 0;
      assert forall i | 0 <= i < |ts[1..]| :: ts[1..][i] == ts[i + 1];
      NonEmptyTokensAreDefined(commands, ts[1..]);
    }
  }

  /** A scan without error encounters exactly the commands of the command tokens, in input
      order and with repetitions, and appends to each command exactly the value tokens
      whose nearest preceding command token names it. */
  lemma CleanScan(commands: Registry, st: ScanState, ts: seq<string>)
    requires KeyedByKey(commands) && WellFormed(commands, st) && st.error == NoError
    requires TokensDefined(commands, ts)
    requires ScanDefined(commands, st, ts) && Scan(commands, st, ts).error == NoError
    ensures Scan(commands, st, ts).encountered == st.encountered + ResolvedCommands(commands, ts)
    ensures forall c | c in st.values ::
              Scan(commands, st, ts).values[c] == st.values[c] + ValuesFor(commands, st.current, ts, c)
  {
    CleanScanEncountered(commands, st, ts);
    forall c | c in st.values
      ensures Scan(commands, st, ts).values[c] == st.values[c] + ValuesFor(commands, st.current, ts, c)
    {
      CleanScanValues(commands, st, ts, c);
    }
  }

  /** The encountered half of `CleanScan`. */
  lemma {:induction false} CleanScanEncountered(commands: Registry, st: ScanState, ts: seq<string>)
    requires KeyedByKey(commands) && WellFormed(commands, st) && st.error == NoError
    requires TokensDefined(commands, ts)
    requires ScanDefined(commands, st, ts) && Scan(commands, st, ts).error == NoError
    ensures Scan(commands, st, ts).encountered == st.encountered + ResolvedCommands(commands, ts)
    decreases |ts|
  {
    if ts != [] {
      ScanUnfold(commands, st, ts);
      var next := Step(commands, st, ts[0]);
      assert next.error == NoError;
      CleanScanEncountered(commands, next, ts[1..]);
      if IsCommandToken(ts[0]) {
        assert ResolvedCommands(commands, ts) == [next.current] + ResolvedCommands(commands, ts[1..]);
      } else {
        assert ResolvedCommands(commands, ts) == ResolvedCommands(commands, ts[1..]);
      }
    }
  }

  /** A scan that ends without error faulted on none of its tokens. */
  lemma {:induction false} CleanScanTokensDefined(commands: Registry, st: ScanState, ts: seq<string>)
    requires KeyedByKey(commands) && WellFormed(commands, st) && st.error == NoError
    requires ScanDefined(commands, st, ts) && Scan(commands, st, ts).error == NoError
    ensures TokensDefined(commands, ts)
    decreases |ts|
  {
    if ts != [] {
      ScanUnfold(commands, st, ts);
      var next := Step(commands, st, ts[0]);
      assert next.error == NoError;
      CleanScanTokensDefined(commands, next, ts[1..]);
    }
  }

  /** A scan that stops at an error keeps what the tokens before the failing one gave:
      the commands they resolve to, and each command's values among them. */
  lemma StoppedScan(commands: Registry, st: ScanState, ts: seq<string>)
    requires KeyedByKey(commands) && WellFormed(commands, st) && ScanDefined(commands, st, ts)
    requires st.error == NoError && Scan(commands, st, ts).error != NoError
    ensures exists n | 0 <= n < |ts| ::
              && ScanDefined(commands, st, ts[..n])
              && Scan(commands, st, ts[..n]).error == NoError
              && StepDefined(commands, ts[n])
              && Scan(commands, st, ts) == Step(commands, Scan(commands, st, ts[..n]), ts[n])
              && TokensDefined(commands, ts[..n])
              && Scan(commands, st, ts).encountered == st.encountered + ResolvedCommands(commands, ts[..n])
              && forall c | c in st.values ::
                   Scan(commands, st, ts).values[c] == st.values[c] + ValuesFor(commands, st.current, ts[..n], c)
  {
    ScanErrorAt(commands, st, ts);
    var n :| 0 <= n < |ts| && ScanDefined(commands, st, ts[..n])
             && Scan(commands, st, ts[..n]).error == NoError
             && StepDefined(commands, ts[n])
             && Scan(commands, st, ts) == Step(commands, Scan(commands, st, ts[..n]), ts[n]);
    var s := Scan(commands, st, ts[..n]);
    assert Scan(commands, st, ts) == s.(error := Scan(commands, st, ts).error);
    CleanScanTokensDefined(commands, st, ts[..n]);
    CleanScan(commands, st, ts[..n]);
  }

  /** The values half of `CleanScan`, for one command. */
  lemma {:induction false} CleanScanValues(commands: Registry, st: ScanState, ts: seq<string>, c: Command)
    requires KeyedByKey(commands) && WellFormed(commands, st) && st.error == NoError
    requires TokensDefined(commands, ts)
    requires ScanDefined(commands, st, ts) && Scan(commands, st, ts).error == NoError
    requires c in st.values
    ensures Scan(commands, st, ts).values[c] == st.values[c] + ValuesFor(commands, st.current, ts, c)
    decreases |ts|
  {
    if ts != [] {
      ScanUnfold(commands, st, ts);
      var next := Step(commands, st, ts[0]);
      assert next.error == NoError;
      CleanScanValues(commands, next, ts[1..], c);
      StepValuesFor(commands, st, ts, c);
    }
  }

  /** One clean step moves its token from the pending values to the collected ones. */
  lemma StepValuesFor(commands: Registry, st: ScanState, ts: seq<string>, c: Command)
    requires KeyedByKey(commands) && WellFormed(commands, st) && st.error == NoError
    requires TokensDefined(commands, ts)
    requires ts != [] && Step(commands, st, ts[0]).error == NoError && c in st.values
    ensures TokensDefined(commands, ts[1..])
    ensures var next := Step(commands, st, ts[0]);
            next.values[c] + ValuesFor(commands, next.current, ts[1..], c)
            == st.values[c] + ValuesFor(commands, st.current, ts, c)
  {
    var next := Step(commands, st, ts[0]);
    var rest := ValuesFor(commands, next.current, ts[1..], c);
    if IsValueToken(ts[0]) {
      var own := if st.current == c then [ts[0]] else [];
      assert next.values[c] == st.values[c] + own;
      assert st.values[c] + own + rest == st.values[c] + (own + rest);
    }
  }

  /** The values the commands hold at the start do not affect where the scan stops,
      what it encounters or which error it reports. */
  lemma {:induction false} ScanIgnoresValues(commands: Registry, st1: ScanState, st2: ScanState, ts: seq<string>)
    requires KeyedByKey(commands) && WellFormed(commands, st1) && WellFormed(commands, st2)
    requires st2 == st1.(values := st2.values)
    requires ScanDefined(commands, st1, ts)
    ensures ScanDefined(commands, st2, ts)
    ensures Scan(commands, st2, ts) == Scan(commands, st1, ts).(values := Scan(commands, st2, ts).values)
    decreases |ts|
  {
    if ts != [] && st1.error == NoError {
      var n1, n2 := Step(commands, st1, ts[0]), Step(commands, st2, ts[0]);
      assert n2 == n1.(values := n2.values);
      ScanIgnoresValues(commands, n1, n2, ts[1..]);
    }
  }

  /** Parsing again re-appends: from any starting values, a clean scan adds the same values
      to each command, so a second parse over the same tokens leaves every command with
      its collected values twice. */
  lemma Reparse(commands: Registry, v: map<Command, seq<string>>, ts: seq<string>)
    requires KeyedByKey(commands) && Covers(commands, v)
    requires ScanDefined(commands, Start(v), ts)
    ensures var r1 := Scan(commands, Start(v), ts);
            ScanDefined(commands, Start(r1.values), ts)
            && var r2 := Scan(commands, Start(r1.values), ts);
               r2.encountered == r1.encountered && r2.error == r1.error
               && (r1.error == NoError ==> TokensDefined(commands, ts) && forall c | c in v ::
                     r2.values[c] == v[c] + ValuesFor(commands, null, ts, c) + ValuesFor(commands, null, ts, c))
  {
    var r1 := Scan(commands, Start(v), ts);
    ScanIgnoresValues(commands, Start(v), Start(r1.values), ts);
    if r1.error == NoError {
      CleanScanTokensDefined(commands, Start(v), ts);
      CleanScan(commands, Start(v), ts);
      CleanScan(commands, Start(r1.values), ts);
    }
  }

  /** The token made of the prefix and a key that does not itself start with the prefix. */
  function Flag(name: string): string
  {
    [Prefix] + name
  }

  /** The flag of a name that does not start with the prefix strips back to that name. */
  lemma FlagResolves(name: string)
    requires name == [] || name[0] != Prefix
    ensures IsCommandToken(Flag(name)) && TrimStart(Flag(name), Prefix) == name
  {
    TrimStartOne(name, Prefix);
  }

  /** The key shown in a command's `KeyString` is a token the scan resolves to that command. */
  lemma KeyStringKeyResolves(commands: Registry, c: Command)
    requires KeyedByKey(commands) && c.key in commands && commands[c.key] == c
    requires c.key == [] || c.key[0] != Prefix
    ensures c.KeyString()[..|c.key| + 1] == Flag(c.key)
    ensures StepDefined(commands, Flag(c.key))
    ensures IsCommandToken(Flag(c.key)) && TrimStart(Flag(c.key), Prefix) == c.key
    ensures Resolve(commands, c.key) == c
  {
    FlagResolves(c.key);
  }

  /** The alias shown in a command's `KeyString` resolves to it as well, provided that no
      registered key and no other command's alias is the same string. */
  lemma KeyStringAliasResolves(commands: Registry, c: Command)
    requires KeyedByKey(commands) && c.key in commands && commands[c.key] == c
    requires c.ShowsAlias() && c.alias.value !in commands && AliasUnique(commands, c.alias.value)
    requires c.alias.value[0] != Prefix
    ensures c.KeyString()[|c.key| + 1..] == " " + Flag(c.alias.value)
    ensures StepDefined(commands, Flag(c.alias.value))
    ensures IsCommandToken(Flag(c.alias.value)) && TrimStart(Flag(c.alias.value), Prefix) == c.alias.value
    ensures Resolve(commands, c.alias.value) == c
  {
    FlagResolves(c.alias.value);
    var r := Resolve(commands, c.alias.value);
    assert r != null;
    var k :| k in commands && commands[k] == r;
    assert commands[k].alias == Val(c.alias.value) && commands[c.key].alias == Val(c.alias.value);
  }
}
