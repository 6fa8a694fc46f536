# NeoCli argument parser, modelled in Dafny

NeoCli is a small C# library for command-line arguments. An application registers
*commands*. Each command has:

- a key;
- an optional alias;
- optional help text;
- an optional key of a command that it excludes;
- a value *necessity*: `None`, `Required` or `Optional`.

`ArgumentParser.Parse` then makes one left-to-right pass over the argument vector:

- A token starting with `-` is a command token. Its leading dashes are stripped, and the rest
  is looked up by key and then by alias.
- Any other token is a value. It is appended to the most recent command.
- The scan stops at the first structural error. There are four of them: an unrecognized
  command, a mutual-exclusion conflict, a value before any command, and a value after a
  command that takes none.
- After the scan, a check reports the first encountered `Required` command that collected no
  value. That report replaces any scan error.
- `Parse` returns a `CommandCollection`. It holds the encountered commands, in encounter
  order and with repetitions, and a documentation string. The collection supports
  first-match lookup by key or alias.

The model follows the source's own structure:

- `wrappers.dfy`: `Nullable<T>`, standing for C#'s nullable strings. It is not called
  `Option` because `Necessity` keeps its own `None`.
- `necessity.dfy`: the `Necessity` enumeration.
- `text.dfy`: the .NET pieces the parser relies on (`char.IsWhiteSpace`,
  `string.IsNullOrWhiteSpace`, `TrimStart`, `string.Join`), and the position that
  `FirstOrDefault` finds.
- `command.dfy`: `Command` as a class.
  - The record's properties `Key`, `Alias`, `HelpText`, `Excludes` and `CommandValues` are
    `const` fields.
  - The `Values` list is the one mutable field, `values`.
  - The derived properties are functions over these fields.
  - The post-scan check `FirstMissing` is also here.
- `command_collection.dfy`: the read-only result, as a datatype with `Get` and `Contains`.
  Enumerating the collection yields its field `parsedArgs`.
- `scanning.dfy`: the specification of the scan.
  - `Step` is one iteration of the loop body, over an explicit state. The state holds the
    current command, the encountered list, the values collected per command object, and the
    error.
  - `Scan` folds `Step` over the tokens and stops at the first error.
  - The error is kept as a `ScanError` value. `Message` renders the exact texts the source
    produces.
- `argument_parser.dfy`: `ArgumentParser` as a class.
  - The registry is a map from keys to `Command` objects. The keys' order of first
    registration is kept in `order`.
  - `Register` changes the registry in place.
  - `Parse` is the source's loop, proved against `Scan`.
  - The values are appended to the `Command` objects in the registry themselves.
  - The documentation functions are here too.
- `scan_properties.dfy`: lemmas about the scan. They cover where it stops, what it collects,
  that it ignores values already held, and re-parsing.
- `scenarios.dfy`: lemmas for particular inputs. There is one for each error outcome, two for
  the one-directional exclusion, one for a repeated flag and one for lookup through an alias.

Aliasing is explicit:

- The scan's `values` map is keyed by `Command` object.
- The registry is keyed so that `commands[k].key == k` (`KeyedByKey`). So distinct keys hold
  distinct objects.
- A repeated flag puts the same object into the encountered list twice. That one object
  collects the values from both places (`Scenarios.RepeatedFlagSharesCommand`).

The model follows the code where its behaviour differs from what its documentation says or
what a caller may expect:

- **Exclusion is one-directional.** The documentation of `Register`'s `exclude` parameter
  calls the two commands mutually exclusive (NeoCli/ArgumentParser.cs:31). The check runs
  only when the command that declares the exclusion is seen after the excluded one. When
  `a` excludes `b` and `b` does not exclude `a`, the order `-a -b` passes and `-b -a` fails
  (`Scenarios.ExcluderFirstPasses`, `Scenarios.ExcluderSecondFails`).
- **Every leading `-` is stripped, not only one**, which a caller may not expect.
  `TrimStart(PREFIX)` removes the whole run, so `--key` and `-key` name the same command.
  A consequence: a command registered under a key that itself starts with `-` (say `-x`)
  can never be reached by its key, since no token strips to it.
  `ScanProperties.KeyStringKeyResolves` asks for a key that does not start with `-` for
  this reason.
- **The missing-required report overrides a scan error**, which a caller may not expect.
  It does not stop at the first error (`Scenarios.MissingOverridesScanError`).

## Model

| member | source | states |
|---|---|---|
| Text.IsWhiteSpace | NeoCli/Command.cs:26 | defines .NET's white-space characters: U+0009 to U+000D, U+0020, U+0085, U+00A0, U+1680, U+2000 to U+200A, U+2028, U+2029, U+202F, U+205F and U+3000 |
| Text.IsNullOrWhiteSpace | NeoCli/ArgumentParser.cs:65 | defines `string.IsNullOrWhiteSpace`: null, or every character white space (so the empty string too) |
| Text.TrimStart | NeoCli/ArgumentParser.cs:56 | the result is a suffix of the token; every character removed is the prefix; the result does not start with the prefix |
| Text.TrimStartOne | NeoCli/ArgumentParser.cs:56 | one prefix in front of a key that does not start with the prefix strips back to that key |
| Text.TrimStartAbsorbs | NeoCli/ArgumentParser.cs:56 | one more leading prefix strips to the same key, so any number of leading dashes are removed |
| Text.Join | NeoCli/ArgumentParser.cs:94 | defines `string.Join`: empty for no parts, the part itself for one, and otherwise the first part, the separator and the join of the rest |
| Text.JoinIsFirstThenPrefixed | NeoCli/ArgumentParser.cs:94-97 | joining a non-empty list is its first part followed by every later part, each after one separator |
| Text.FirstIndex | NeoCli/CommandCollection.cs:35 | the position `FirstOrDefault` finds: no earlier element matches, and the element there matches unless the position is past the end |
| Commands.Command.constructor | NeoCli/Command.cs:11-16 | a new command has the given key, alias, help text, excluded key and necessity, and no values |
| Commands.Command.Value | NeoCli/Command.cs:21 | null exactly when there are no values; otherwise the first value |
| Commands.Command.KeyString | NeoCli/Command.cs:26 | `-` followed by the key; then ` -` and the alias exactly when the alias has a non-white-space character, and nothing more otherwise |
| Commands.Command.DocumentationString | NeoCli/Command.cs:31 | the key string, then ` - `, then the help text (empty when the help text is null) |
| Commands.Command.HasHelpText | NeoCli/Command.cs:36 | holds exactly when the help text is non-null and some character of it is not white space |
| Commands.FirstMissing | NeoCli/ArgumentParser.cs:92 | null exactly when no listed command is `Required` with no values; otherwise the first such command in list order |
| Commands.FirstMissingReadsListed | NeoCli/ArgumentParser.cs:92 | the check depends only on the values of the listed commands |
| CommandCollections.CommandCollection.Get | NeoCli/CommandCollection.cs:31-36 | null exactly when no entry has the key as key or alias; otherwise the first entry in list order that does |
| CommandCollections.CommandCollection.Contains | NeoCli/CommandCollection.cs:24 | holds exactly when some entry has the key as its key or its alias |
| Scanning.IsCommandToken | NeoCli/ArgumentParser.cs:54 | defines a command token: its first character is `-` |
| Scanning.IsValueToken | NeoCli/ArgumentParser.cs:54 | defines a value token: it is non-empty and its first character is not `-` |
| Scanning.UnrecognizedMessage | NeoCli/ArgumentParser.cs:61 | defines the text `Command "<token>" was not recognized. See help text for command list.` with the token as given |
| Scanning.ExclusiveMessage | NeoCli/ArgumentParser.cs:68 | defines the text `The commands "<key string>" and "<other key string>" are mutually exclusive.` |
| Scanning.UnexpectedMessage | NeoCli/ArgumentParser.cs:78 | defines the text `Unexpected value "<token>". Did you miss a command?` |
| Scanning.NotAllowedMessage | NeoCli/ArgumentParser.cs:84 | defines the text `The command "<key string>" does not allow parameters.` |
| Scanning.MissingMessage | NeoCli/ArgumentParser.cs:93 | defines the text `The command "<key string>" is missing required parameters.` |
| Scanning.Resolve | NeoCli/ArgumentParser.cs:58-59 | a registered key wins; otherwise null exactly when no command has that alias, and else the registered command with that alias |
| Scanning.Message | NeoCli/ArgumentParser.cs:61-84 | the error text is empty exactly when there is no error |
| Scanning.StepDefined | NeoCli/ArgumentParser.cs:54-59 | defines when one token cannot fault: it is non-empty (`argument[0]`), and a command token whose stripped name is no key matches at most one alias (`SingleOrDefault`) |
| Scanning.Step | NeoCli/ArgumentParser.cs:54-89 | an error changes nothing but the error; a clean command token makes the resolved command current and appends it; a clean value token needs a current command that takes values, and appends the token to its values only |
| Scanning.ExcludedIsRegistered | NeoCli/ArgumentParser.cs:67 | a key that some encountered command has is a registry key, so the lookup of the excluded command cannot fail |
| Scanning.ScanDefined | NeoCli/ArgumentParser.cs:52-59 | defines when the loop cannot fault: every token it reaches before the first error satisfies `StepDefined` |
| Scanning.Scan | NeoCli/ArgumentParser.cs:52-90 | the scan keeps the state well formed: the current and every encountered command are registered, and every registered command has an entry for its values |
| Scanning.FinalError | NeoCli/ArgumentParser.cs:92-93 | the reported error is empty exactly when the scan set none and no command misses its required values; with nothing missing it is the scan's own message |
| Scanning.ParseError | NeoCli/ArgumentParser.cs:92-93 | defines the error of a whole parse: the final error of the scan's error and the first encountered command lacking required values |
| ScanProperties.ScanAppend | NeoCli/ArgumentParser.cs:52-90 | scanning two token lists in turn is scanning their concatenation |
| ScanProperties.ScanStopsAtError | NeoCli/ArgumentParser.cs:62-85 | once an error is set, no later token is examined: any suffix leaves the result unchanged |
| ScanProperties.ScanErrorAt | NeoCli/ArgumentParser.cs:52-90 | a scan that fails fails at one token: the tokens before it scan cleanly, and that token's step gives the final state |
| ScanProperties.StoppedScan | NeoCli/ArgumentParser.cs:52-90 | a scan that stops at an error stops at one token, whose step from the clean scan of the tokens before it gives the final state; it has encountered exactly the commands of the command tokens before the failing one, and has given each command exactly its value tokens among them |
| ScanProperties.ScanDefinedWhenTokensAreDefined | NeoCli/ArgumentParser.cs:54-59 | the parse cannot fault when no token can fault |
| ScanProperties.NonEmptyTokensAreDefined | NeoCli/ArgumentParser.cs:54-59 | with distinct aliases, no non-empty token can fault |
| ScanProperties.CleanScan | NeoCli/ArgumentParser.cs:52-90 | a clean scan encounters exactly the commands of the command tokens, in input order with repetitions, and gives each command exactly the value tokens that follow its tokens |
| ScanProperties.CleanScanEncountered | NeoCli/ArgumentParser.cs:72 | a clean scan's encountered list is the resolved commands of the command tokens, in input order |
| ScanProperties.CleanScanValues | NeoCli/ArgumentParser.cs:88 | a clean scan appends to a command exactly the value tokens whose nearest preceding command token resolves to it |
| ScanProperties.CleanScanTokensDefined | NeoCli/ArgumentParser.cs:54-59 | a scan that ends without error faulted on none of its tokens |
| ScanProperties.ScanIgnoresValues | NeoCli/ArgumentParser.cs:52-90 | values already held do not change where the scan stops, what it encounters or which error it reports |
| ScanProperties.Reparse | NeoCli/ArgumentParser.cs:88 | parsing the same tokens again gives the same encountered list and error, and after a clean parse the second leaves every command with its values twice |
| ScanProperties.FlagResolves | NeoCli/ArgumentParser.cs:54-56 | a dash before a key is a command token whose stripped key is that key |
| ScanProperties.KeyStringKeyResolves | NeoCli/Command.cs:26 | the key part of a key string is a token that resolves to that command |
| ScanProperties.KeyStringAliasResolves | NeoCli/Command.cs:26 | the alias part of a key string is a token that resolves to that command, when no key and no other alias is the same string |
| Scenarios.StepFlag | NeoCli/ArgumentParser.cs:54-72 | a registered flag whose exclusion does not fire becomes current and is appended to the encountered list |
| Scenarios.StepFlagExcluded | NeoCli/ArgumentParser.cs:65-69 | when an encountered command has the excluded key, the step sets the exclusion error, naming the new command and then the excluded one, and changes nothing else |
| Scenarios.StepValue | NeoCli/ArgumentParser.cs:82-88 | a value after a command that takes values is appended to that command's values only |
| Scenarios.ValueBeforeAnyCommand | NeoCli/ArgumentParser.cs:76-79 | a value as the first token is reported as unexpected, naming that token, and nothing is encountered |
| Scenarios.UnknownFlagStep | NeoCli/ArgumentParser.cs:58-62 | from any clean state, a flag matching no key and no alias sets the not-recognized error with the token as given, and changes nothing else |
| Scenarios.UnknownFlag | NeoCli/ArgumentParser.cs:58-62 | wherever such a flag stands, the scan ends with the state the tokens before it gave, plus the not-recognized error; no later token is examined |
| Scenarios.ValueAfterNoneCommand | NeoCli/ArgumentParser.cs:82-86 | a value right after a command with necessity `None` is rejected, naming that command, whatever precedes or follows |
| Scenarios.ExcluderFirstPasses | NeoCli/ArgumentParser.cs:65 | when `a` excludes `b` and `b` does not exclude `a`, giving `a` then `b` raises no error and encounters both, in order |
| Scenarios.ExcluderSecondFails | NeoCli/ArgumentParser.cs:65-69 | giving `b` then `a` ends with the exclusion error for `a` and `b`, whatever `b` itself excludes |
| Scenarios.RepeatedFlagSharesCommand | NeoCli/ArgumentParser.cs:72-88 | a flag given twice, for a command that takes values and does not exclude its own key, is encountered twice as the same object, which holds the values from both places |
| Scenarios.AliasStep | NeoCli/ArgumentParser.cs:58-72 | from any clean state, a flag of a command's alias, when no key is that alias and the command's exclusion does not fire, makes that command current and appends it to the encountered list |
| Scenarios.AliasLookupRoundTrip | NeoCli/ArgumentParser.cs:58-59 | a command given by its alias is encountered, and the result finds it both by its key and by that alias |
| Scenarios.GetSingle | NeoCli/CommandCollection.cs:35 | in a one-entry collection, any name of that entry finds it |
| Scenarios.FirstMissingSingle | NeoCli/ArgumentParser.cs:92 | a lone command that lacks required values is the one reported |
| Scenarios.RequiredWithoutValue | NeoCli/ArgumentParser.cs:92-93 | a `Required` flag given without a value, for a command that holds no values from an earlier parse, scans cleanly but is reported as missing its parameters |
| Scenarios.MissingOverridesScanError | NeoCli/ArgumentParser.cs:92-93 | a `Required` command given without a value, and holding no values from an earlier parse, is reported in place of a later unrecognized-command error |
| Parsers.HelpLines | NeoCli/ArgumentParser.cs:94-95 | defines the help lines: the documentation strings of the registered commands that have help text, in registration order |
| Parsers.Documentation | NeoCli/ArgumentParser.cs:94-97 | defines the documentation: the name, the description and the help lines, joined by the newline |
| Parsers.DocumentationLayout | NeoCli/ArgumentParser.cs:94-97 | the documentation is the name, then the description on its own line, then each help line on its own line |
| Parsers.HelpLineOf | NeoCli/ArgumentParser.cs:94-95 | a line is a help line exactly when it is the documentation string of a registered command that has help text |
| Parsers.HelpLineSound | NeoCli/ArgumentParser.cs:94-95 | every help line is the documentation string of a registered command with help text |
| Parsers.HelpLineComplete | NeoCli/ArgumentParser.cs:94-95 | every registered command with help text contributes its documentation string |
| Parsers.HelpLinesCount | NeoCli/ArgumentParser.cs:94-95 | there is at most one help line per registered command, and exactly one each when all have help text |
| Parsers.ArgumentParser.constructor | NeoCli/ArgumentParser.cs:9-23 | a new parser keeps the arguments, name and description, and has an empty registry |
| Parsers.ArgumentParser.Register | NeoCli/ArgumentParser.cs:34-40 | the entry under the key is a fresh command with the given fields and no values; other entries are unchanged; a new key goes last in the order and an overwritten one keeps its place; the parser itself is returned |
| Parsers.ArgumentParser.Parse | NeoCli/ArgumentParser.cs:47-98 | the result lists the scan's encountered commands; every registered command holds the scan's values for it; the error is the post-scan report or else the scan's message; the documentation is the registry's |
| Parsers.ArgumentParser.MissingCheck | NeoCli/ArgumentParser.cs:92 | on the values the commands hold, the post-scan check finds the first listed command lacking required values |
| Parsers.ArgumentParser.ScanArgs | NeoCli/ArgumentParser.cs:49-90 | the loop returns the scan's encountered list and error message, and leaves every command holding the scan's values |
| Parsers.ArgumentParser.ScanToken | NeoCli/ArgumentParser.cs:54-89 | one iteration matches one `Step`: same error, same values held, and on success the same current command and encountered list |
| Parsers.ArgumentParser.CommandToken | NeoCli/ArgumentParser.cs:54-72 | the command-token branch matches `Step`: same error, and on success the command that becomes current |

## Left out

- `InitializerExtension.Init` only calls the constructor, so `ArgumentParser.constructor` models it.
- `Environment.NewLine` is platform-dependent. It is fixed to `"\n"` here. The join lemmas hold for any separator.
- Keys and aliases that `Register` and `Get` take as `object`, converted with `ToString()`, are plain strings here. So `Get`'s branch for a null `ToString()` result has no counterpart.
- `args` is a sequence of strings rather than a .NET array. The parser never changes it.
- Registry order: .NET does not promise that a `Dictionary` enumerates in insertion order. The model assumes it does, with an overwritten key keeping its first position (`order`).
- The `IEnumerable` plumbing of `CommandCollection` is left out, because enumeration yields the `parsedArgs` list. The C# record's value equality and hashing are left out, because only reference identity matters: values are shared through the same objects.
- Parse: does not model the two exceptions the source can throw. An empty token faults at `argument[0]`. An alias lookup that finds two commands makes `SingleOrDefault` throw. `Parse` instead requires `ScanDefined`: the tokens the scan actually reaches raise neither. `ScanProperties.NonEmptyTokensAreDefined` and `ScanProperties.ScanDefinedWhenTokensAreDefined` give the simple sufficient condition: non-empty tokens and distinct aliases.
- Strings are sequences of Unicode scalar values, while .NET strings are UTF-16 code units. An unpaired surrogate therefore has no counterpart. Nothing in the parser depends on the difference: it looks only at a token's first character and compares strings ordinally, and every .NET white-space character lies in the Basic Multilingual Plane, where the two agree.
