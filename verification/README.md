# Command-line tokenizer and parser, modelled in Dafny

This project models the core of a small command-line parser engine. A
declarative spec lists global parameters, action-scoped parameters and
actions. Construction compiles the spec into name tables. A parse then runs
one forward pass over the shell arguments and produces a result map from
parameter identifiers to parsed values, or the first parse error.

The model follows the three layers of the source:

- `token_syntax.dfy` (module `TokenSyntax`) covers the lexical rules. The four
  anchored patterns (long name, short name, environment-variable name, action
  name) are character-level predicates. The long-name, environment-variable
  and action-name patterns each come with an independent position-wise
  characterisation. The short-name pattern comes with its separation from the
  long-name pattern. The long-name to identifier converter is a fold over the
  pieces of `split('-')`, plus the loop method the source writes, proved equal
  to it. Injectivity on valid long names is proved through a decoder and a
  round-trip lemma.
- `token_stream.dfy` (module `TokenStream`) covers the token stream. The total
  classifier `MakeCurrentToken` is a function of the arguments and the cursor.
  The class `TokenStream` holds the cursor and the cached current token, and
  its methods keep the two in step.
- `cli_spec.dfy` (module `CliSpec`) holds the spec datatypes.
- `compilation.dfy` (module `Compilation`) describes what construction
  computes, as folds that stop at the first refusal. It proves that
  construction succeeds exactly on well-formed specs and that the tables then
  reach every parameter and action.
- `parse_semantics.dfy` (module `ParseSemantics`) describes one parse as
  functions:
  - the pre-populated result map;
  - one loop iteration (`Step`);
  - the loop run to its end (`Run`);
  - the outcome.

  The source's internal-error throws become an `InternalFailure` outcome.
- `parse_properties.dfy` (module `ParseProperties`) holds the properties of a
  run:
  - the first error is sticky, and the loop reads nothing beyond the token
    after the one it stopped on;
  - the last occurrence of a parameter wins;
  - a stray positional word throws;
  - naming an action-scoped parameter throws;
  - what the reported error message means.
- `cli_parser.dfy` (module `CliParser`) holds the imperative parser. The
  classes `ParserState` and `CliParser` have map-valued tables filled in place
  and a `while` loop over a fresh parser state. Every method is proved to
  compute what the functions of `Compilation` and `ParseSemantics` describe.
  The parse methods follow the corrected result-map lookups of the first two
  "## Findings" rows; the lookups as written are the `...AsWritten` functions
  of `ParseSemantics`.

Two behaviours of the code are made explicit rather than excluded by
preconditions:

- A positional word where a parameter name is expected reaches the loop's
  `default` branch and throws, whatever follows it. The model returns
  `InternalFailure(UnimplementedTokenKind(i))` (`ParseProperties.StrayLiteralThrows`).
- Action-scoped parameters are in the name tables (src/CliParser.ts:53-62),
  but only global identifiers get a result entry (src/CliParser.ts:124 and
  174-187). Naming an action-scoped parameter on the command line, by its long
  or its short name, makes `_parseParameter` (src/CliParser.ts:194-197) look up
  an entry that was never written, unless its identifier is also a global one.
  That can happen only off the long-name pattern: a global `--aB` and an
  action-scoped `--a-b` share the identifier `aB`, and the action-scoped name
  then writes the global entry.
  - When the identifier is not a member that every plain object inherits, the
    lookup gives `undefined` and the write `result.token = ...` throws. The
    model returns `InternalFailure(MissingResultEntry(id))`, wherever the name
    stands after arguments that parsed without a message
    (`ParseProperties.ActionParameterThrows`,
    `ParseProperties.ActionParameterThrowsAnywhere`).
  - When it is such a member, for example `toString` or `constructor`, the
    lookup finds that inherited object. The writes land on it, and the parse
    goes on with the result map untouched (`ParseProperties.ActionPrototypeMemberParsesOn`).
    This is the second "## Findings" row.

Where the comments in the code promise more than the code does, the model
follows the code:

- The converter's comment (src/TokenSyntax.ts:36) says the case and
  underscore rules make the mapping a bijection. The conversion is injective
  only on strings that match the long-name pattern. For example, `--a-b` and
  `--aB` both become `aB` (`TokenSyntax.IdentifierCollisionOffPattern`).
  Injectivity on valid long names is what is proved
  (`TokenSyntax.IdentifierInjective`).

## Model

| member | source | states |
|---|---|---|
| TokenSyntax.SeparatedRunsIsFlat | src/TokenSyntax.ts:3-15 | `[a-z0-9]+([sep][a-z0-9]+)*` holds iff the string is non-empty, starts and ends with `[a-z0-9]`, uses only `[a-z0-9]` and separators, and has no two separators in a row |
| TokenSyntax.LongNameShape | src/TokenSyntax.ts:3 | a valid long name is exactly `--` followed by dash-separated non-empty `[a-z0-9]` runs: length at least 3, no trailing dash, no empty segment after the leading dashes, and no upper-case letter |
| TokenSyntax.NamesAreDisjoint | src/TokenSyntax.ts:3-6 | a long name starts with `--`; a short name starts with one dash and not two; no string is both |
| TokenSyntax.EnvironmentVariableNameIsPortable | src/TokenSyntax.ts:8-12 | the pattern accepts exactly the non-empty strings over `A-Z`, `0-9` and `_` that do not begin with a digit, as in section 8.1 of IEEE Std 1003.1-2001 |
| TokenSyntax.ActionNameShape | src/TokenSyntax.ts:15 | an action name starts with a lower-case letter, uses `[a-z0-9]`, `-` and `:` only, ends with `[a-z0-9]` and has no two separators in a row |
| TokenSyntax.ToUpper | src/TokenSyntax.ts:32 | a lower-case ASCII letter becomes the capital at the same place in the alphabet; anything else is unchanged |
| TokenSyntax.CaseRoundTrip | src/TokenSyntax.ts:32 | lower-casing the upper-cased lower-case letter gives it back, and the other way round for capitals |
| TokenSyntax.Split | src/TokenSyntax.ts:23 | `split('-')` yields at least one piece and no piece contains a dash |
| TokenSyntax.JoinSplit | src/TokenSyntax.ts:23 | joining the pieces of `split('-')` with dashes gives back the string |
| TokenSyntax.SplitJoin | src/TokenSyntax.ts:23 | splitting dash-free pieces joined with dashes gives back the pieces |
| TokenSyntax.ConvertParameterLongNameToIdentifier | src/TokenSyntax.ts:20-43 | the loop that appends to a mutable result computes the fold over the pieces: empty pieces skipped, letter-led pieces verbatim while the result is empty and capitalised afterwards, other pieces behind `_` |
| TokenSyntax.OneWordIdentifier | src/TokenSyntax.ts:20-43 | a long name of one dash-free word converts to that word appended to the empty result |
| TokenSyntax.TwoWordIdentifier | src/TokenSyntax.ts:20-43 | a long name of two dash-free words converts to the fold of those two words, the leading empty pieces skipped |
| TokenSyntax.ConverterExample | src/TokenSyntax.ts:17-19 | `--example-flag-123-456` converts to `exampleFlag_123_456` |
| TokenSyntax.ConverterExampleDoSomething | src/TokenSyntax.ts:27-34 | `--do-something` converts to `doSomething` |
| TokenSyntax.ConverterExampleDigitFirst | src/TokenSyntax.ts:27-39 | the test is on the result being empty, not on the first piece: `--1-a` converts to `_1A` |
| TokenSyntax.ConvertPartsHasNoDash | src/TokenSyntax.ts:23-41 | appending dash-free pieces to a dash-free result never introduces a dash |
| TokenSyntax.IdentifierHasNoDash | src/TokenSyntax.ts:20-43 | no identifier contains a dash |
| TokenSyntax.IdentifierRoundTrip | src/TokenSyntax.ts:36-38 | on valid long names the decoder recovers the long name from its identifier |
| TokenSyntax.IdentifierCollisionOffPattern | src/TokenSyntax.ts:36 | the comment's bijection fails off the pattern: the valid `--a-b` and the invalid `--aB` both convert to `aB` |
| TokenSyntax.IdentifierInjective | src/TokenSyntax.ts:36 | two valid long names with the same identifier are equal |
| TokenStream.MakeCurrentToken | src/TokenStream.ts:44-98 | the token carries the cursor as its index; it is EndOfStream with value `""` iff the cursor is at or past the end; otherwise its value is the raw argument, it is LongParameter iff the argument is a long name, ShortParameter iff a short name, Literal iff it does not start with a dash, and only Error tokens carry a message, chosen by a `--` prefix |
| TokenStream.ErrorTokens | src/TokenStream.ts:55-90 | an argument is an Error token iff it starts with a dash and matches neither name pattern |
| TokenStream.TokenStream.constructor | src/TokenStream.ts:25-29 | the cursor starts at 0 and the cached token is the classification there |
| TokenStream.TokenStream.CurrentToken | src/TokenStream.ts:31-33 | reading the current token changes nothing and gives the classification under the cursor |
| TokenStream.TokenStream.Advance | src/TokenStream.ts:35-42 | below the end, the cursor moves by exactly one and the token is reclassified |
| Compilation.AddParameter | src/CliParser.ts:90-115 | one registration is refused iff the long name is taken or a present short name is taken, with the long name checked first; otherwise it adds exactly that long name and that short name |
| Compilation.AddParametersStopsAtFirstRefusal | src/CliParser.ts:56-62 | once a prefix of the parameters is refused, construction reports that same error |
| Compilation.AddParametersMeaning | src/CliParser.ts:56-62 | registering all parameters succeeds iff long names are pairwise distinct and present short names are pairwise distinct; the tables then reach every parameter by long and short name with its identifier |
| Compilation.ResolveAssociated | src/CliParser.ts:75-84 | resolving an action's long names succeeds iff all of them are in the long-name table, giving exactly their details; otherwise the error names the action and an undefined long name |
| Compilation.AddAction | src/CliParser.ts:64-86 | an action is refused iff its name is taken or one of its names does not resolve; otherwise exactly its name is added |
| Compilation.AddActionsStopsAtFirstRefusal | src/CliParser.ts:64-87 | once a prefix of the actions is refused, construction reports that same error |
| Compilation.AddActionsMeaning | src/CliParser.ts:64-87 | actions are accepted iff their names are distinct and every associated long name is registered, global or action-scoped; the table then reaches every action with its resolved parameters |
| Compilation.CompileMeaning | src/CliParser.ts:53-88 | construction succeeds iff the spec is well-formed; it then reaches every parameter and action, and keeps the global and action parameter details in order |
| CliParser.ParserState.constructor | src/CliParser.ts:26-40 | a fresh state has a fresh stream at 0, no error token, an empty result map and no message |
| CliParser.CliParser.CreateParameterDetail | src/CliParser.ts:90-115 | the method refuses exactly what `AddParameter` refuses, leaving the tables untouched; otherwise it updates them as `AddParameter` does and returns the detail with the converted identifier |
| CliParser.CliParser.RegisterParameters | src/CliParser.ts:56-62 | the construction loop over parameters ends with the tables that registering them after the earlier ones gives, or with that fold's error |
| CliParser.CliParser.ResolveAssociatedParameters | src/CliParser.ts:70-84 | the inner loop over an action's long names computes `ResolveAssociated` |
| CliParser.CliParser.RegisterActions | src/CliParser.ts:64-87 | the loop over actions leaves the action table that `AddActions` gives, or that fold's error |
| CliParser.CliParser.Construct | src/CliParser.ts:53-88 | construction fails iff the spec is refused, with the same error; otherwise all five fields are those of the compiled spec |
| CliParser.CliParser.CreateFromSpec | src/CliParser.ts:117-119 | a parser is created iff the spec is well-formed; otherwise the result is the compile error |
| CliParser.CliParser.CreateParameterValues | src/CliParser.ts:174-187 | pre-population, with the corrected "already written" test, fails iff an identifier repeats; otherwise the result map is exactly one unset entry per identifier, and the error token and message are untouched |
| CliParser.CliParser.ParseParameter | src/CliParser.ts:189-218 | the in-place update of the entry and the stream is the one `ParameterStep` describes, with the corrected lookup: a missing own entry fails, a flag continues, a string parameter takes the next literal or stops with a message |
| CliParser.CliParser.ParseNextToken | src/CliParser.ts:126-169 | one iteration of the loop body, including its `break`, does what `Step` describes |
| CliParser.CliParser.Parse | src/CliParser.ts:121-172 | the `for(;;)` loop over a fresh state returns the outcome of the corrected parse function for the parser's tables and global parameters, and leaves the parser unchanged |
| ParseSemantics.InitResults | src/CliParser.ts:174-187 | pre-population succeeds iff the identifiers are distinct; the keys are then exactly the identifiers, every entry is unset, and a failure names a repeated identifier |
| ParseSemantics.InitResultsStopsAtFirstDuplicate | src/CliParser.ts:174-187 | once a prefix of the identifiers repeats one, pre-population fails with that same error |
| ParseSemantics.InitResultsAsWritten | src/CliParser.ts:179-181 | the lookup on a plain object literal only ever fails with a duplicate-identifier error, and it always fails when the identifier being written is an inherited member |
| ParseSemantics.InitResultsAsWrittenMeaning | src/CliParser.ts:174-187 | the as-written pre-population succeeds iff the intended one does and no identifier is an inherited member; when it succeeds, or when no identifier is inherited, it equals the intended one |
| ParseSemantics.ParseAsWritten | src/CliParser.ts:121-124 | a global identifier that is an inherited member makes every as-written parse fail internally |
| ParseSemantics.InheritedParameterStep | src/CliParser.ts:194-215 | when the lookup finds only an inherited member, the writes land on it: the step never fails, and it leaves the result map exactly as it was; a flag goes on, and a string parameter takes the next literal or stops with the missing-argument message and the name token |
| ParseSemantics.StepAsWritten | src/CliParser.ts:126-169 | the as-written iteration moves strictly forward and keeps the keys of the result map, so the as-written loop terminates |
| ParseSemantics.ParameterStep | src/CliParser.ts:189-218 | with the corrected lookup, it fails iff the own entry is missing; continuing moves forward and keeps the keys; stopping keeps the keys, reports a message and the name token |
| ParseSemantics.Step | src/CliParser.ts:126-169 | continuing moves strictly forward, so the loop terminates, and keeps the keys; stopping without an error token happens only at the end with the entries unchanged; stopping with a message happens only on the token under the cursor; it throws exactly on a literal (unimplemented token kind at the cursor) or on a recognised name whose identifier has no entry (that missing entry) |
| ParseProperties.RunShape | src/CliParser.ts:126-171 | a run that does not throw keeps exactly the keys; the message is absent iff it reached the end of the stream; the error token is the one at its own index |
| ParseProperties.ContinueStep | src/CliParser.ts:138-160 | an iteration that goes on matched a parameter name in its table, rewrote that entry and no other with the name token and `true` or the following literal, and moved past one or two tokens |
| ParseProperties.MissingArgumentRecordsToken | src/CliParser.ts:194-208 | stopping on a recognised name means a string parameter lacks a literal; its entry then holds the name token but keeps its value |
| ParseProperties.StepOfPrefix | src/CliParser.ts:126-169 | an iteration reads at most the token under the cursor and the one after it |
| ParseProperties.RunIgnoresLaterArguments | src/CliParser.ts:166-168 | once the loop stops on an error, arguments beyond the token after it do not change the result |
| ParseProperties.RunResumes | src/CliParser.ts:126-169 | a run that cleanly consumed `a` behaves on `a + b` like the same run followed by a run over `b` from the entries it had |
| ParseProperties.HaltIsExplained | src/CliParser.ts:130-168 | an iteration that stops on a token stops for one of three reasons: an Error token's message, an unrecognised name, or a missing argument |
| ParseProperties.RunStopsAtFirstError | src/CliParser.ts:126-169 | a run that stops on the token at `k` ran cleanly over the arguments before `k`, and its message is the one that token explains |
| ParseProperties.StrayLiteralThrows | src/CliParser.ts:162-163 | after a clean run over `a`, a positional word at index `|a|` makes the run fail with an unimplemented token kind at that index, whatever arguments follow it |
| ParseProperties.UnpopulatedNameThrows | src/CliParser.ts:194-197 | after a clean run over `a`, a recognised long or short name at index `|a|` whose identifier has no entry makes the run fail on that missing entry, whatever arguments follow it |
| ParseProperties.UnpopulatedNameThrowsInParse | src/CliParser.ts:121-172 | after a prefix that parses without a message, a recognised name whose identifier is not a global one makes the whole parse fail on its missing entry, whatever follows |
| ParseProperties.LastOccurrenceWins | src/CliParser.ts:194-213 | after a clean run an entry nobody named is unchanged, and otherwise holds what the last occurrence of its parameter wrote |
| ParseProperties.IdentifiersOfDetails | src/CliParser.ts:104-107 | the identifiers of the details are the converted long names, in order |
| ParseProperties.GlobalIdentifiersDistinct | src/CliParser.ts:121-124 | for a well-formed spec with valid long names the global identifiers are distinct, so pre-population succeeds |
| ParseProperties.ActionParameterThrows | src/CliParser.ts:194-197 | for a compiled spec with valid long names, naming any action-scoped parameter makes the corrected parse fail on its missing entry; the as-written parse fails the same way when neither that identifier nor a global one is an inherited member |
| ParseProperties.ActionParameterThrowsAnywhere | src/CliParser.ts:53-62 | for a compiled spec with valid long names, an action-scoped parameter named by its long name or its well-formed short name, after arguments that parse without a message and before any others, makes the corrected parse fail on its missing entry |
| ParseProperties.UnpopulatedParameterThrows | src/CliParser.ts:194-197 | a registered long name whose identifier was not pre-populated makes the parse of that one argument fail on the missing entry, and so does the as-written parse when no identifier involved is an inherited member |
| ParseProperties.ParseKeepsGlobalEntries | src/CliParser.ts:121-124 | every successful parse has exactly one entry per global identifier |
| ParseProperties.OneWordLongName | src/TokenSyntax.ts:20-43 | `--` followed by one lower-case word that starts with a letter is a long name, and its identifier is that word |
| ParseProperties.ConstructorIsPrototypeMember | src/TokenSyntax.ts:20-43 | `--constructor` is a valid long name whose identifier, `constructor`, is inherited by every plain object |
| ParseProperties.RunAsWrittenAgrees | src/CliParser.ts:126-169 | when no parameter in the tables is found only by inheritance, the as-written loop runs exactly as the corrected one |
| ParseProperties.ParseAsWrittenAgrees | src/CliParser.ts:121-172 | when no global identifier and no identifier in the tables is an inherited member, the as-written parse equals the corrected parse on every command line |
| ParseProperties.InheritedParameterParsesOn | src/CliParser.ts:194-215 | naming a registered long name whose identifier is only an inherited member: as written, the parse returns the pre-populated map untouched, with no message for a flag and the missing-argument message for a string parameter; the corrected parse fails on the missing entry |
| ParseProperties.ActionPrototypeMemberParsesOn | src/CliParser.ts:194-197 | for a compiled spec, an action-scoped parameter whose identifier is an inherited member makes the as-written parse go on with the pre-populated map instead of throwing |
| ParseProperties.ActionConstructorFlagParsesOn | src/CliParser.ts:194-201 | with one action-scoped flag `--constructor`, parsing `["--constructor"]` gives an empty result map and no message as written, and the missing-entry failure as intended |
| ParseProperties.PrototypeMemberBreaksParse | src/CliParser.ts:121-124 | when the intended pre-population succeeds but a global identifier is an inherited member, the as-written parse of any arguments fails with a duplicate-identifier error, while the intended parse of no arguments succeeds |
| ParseProperties.PrototypeMemberBreaksEveryParse | src/CliParser.ts:179-181 | for a well-formed spec whose global identifier is an inherited member, every as-written parse fails internally, while the intended pre-population succeeds and an empty command line parses |
| ParseProperties.ConstructorFlagBreaksParse | src/CliParser.ts:179-181 | the spec with one global flag `--constructor` is well-formed, yet parsing no arguments fails as written and succeeds as intended |

## Left out

- The `RegExp` engine is not modelled. Each pattern is a hand-written predicate over characters.
- TokenStream.Quote: `JSON.stringify` is simplified to wrapping the argument in double quotes, so backslashes, quotes and control characters are not escaped.
- Construction errors are the `SpecError` variants, not the thrown messages. The `${existingParameter}` object-to-string text is therefore not modelled.
- `InternalError` comes from a foreign library. A parse-time throw is an `InternalFailure` outcome, and advancing past the end is a precondition of `TokenStream.TokenStream.Advance`.
- The `default: throw new InternalError('Unimplemented parameter kind')` branch of `_parseParameter` is unreachable with the two-kind `ParamKind`.
- The missing-entry dereference of an action-scoped parameter is a JavaScript `TypeError`, modelled as `InternalFailure(MissingResultEntry(id))`.
- CliParser.CliParser.ParseParameter: looks the entry up in its own map only, which is the corrected lookup of the second "## Findings" row. The as-written lookup, which also finds inherited `Object.prototype` members, is `ParseSemantics.StepAsWritten`.
- CliParser.CliParser.ParseNextToken: one iteration with the corrected lookup, as `ParseSemantics.Step`; the as-written iteration is `ParseSemantics.StepAsWritten`.
- CliParser.CliParser.CreateParameterValues: implements the corrected "already written" test of the first "## Findings" row (an own entry), not the truthiness test on a plain object; the test as written is `ParseSemantics.InitResultsAsWritten`.
- CliParser.CliParser.Parse: returns the corrected `ParseSemantics.Parse`. For the spec with one global flag `--constructor` it parses where the source throws, and for an action-scoped flag `--constructor` it fails where the source goes on; the outcome as written is `ParseSemantics.ParseAsWritten`.
- ParseSemantics.InheritedParameterStep: the writes onto the inherited object are not modelled, so the step leaves every later lookup as it was. That is wrong for the identifier `__proto__`: its lookup finds `Object.prototype` itself, so every plain object inherits the `token` written onto it, and also the `value` when the parameter is a flag or took its literal. The identifier comes from a long name off the long-name pattern, such as `--_proto__`, but the parameter can still be named through a valid short name. With the action-scoped flags `--_proto__` (short name `-p`) and `--token`, the source parses `["-p", "--token"]` to an empty result map with no message, because `token` is now found by inheritance; the model, which keeps `ObjectPrototypeMembers` fixed, gives `InternalFailure(MissingResultEntry("token"))`.
- ParseSemantics.ParseAsWritten: each call starts from the fixed `ObjectPrototypeMembers`, so the pollution described on the line above does not carry over to later parses. In the source it lasts for the whole process: once `-p` was parsed, a later parse with a global `--token` or `--value` finds a truthy inherited entry and throws "already written" during pre-population.
- `Set` and `Map` insertion order is not modelled. Parameter details are kept as sequences, and an action's associated parameters as a set.
- Fields with no behaviour are left out: tool name, descriptions, summaries and `required`.
- `argumentName` is kept only for the missing-argument message.
- The private constructor's body is split into helper methods, one per loop: `RegisterParameters`, `RegisterActions` and `ResolveAssociatedParameters`.
- The parse loop body is the method `ParseNextToken`, and its `break` is the returned `stop` flag.
- The snapshot test in `src/test/CliParser.test.ts` loads a JSON file and matches snapshots. CliSpec.ts has no behaviour and becomes the datatypes of `CliSpec`.
- `toUpperCase` is modelled for ASCII only. The converter only applies it to an ASCII letter.

## Findings

| source | as written | input that shows it | evidently intended | confidence | as-written member | corrected member |
|---|---|---|---|---|---|---|
| src/CliParser.ts:179-181 | the "already written" test reads the identifier off a plain object literal `{}`, so inherited members such as `constructor`, `toString` or `valueOf` count as already written | a spec with one global flag `--constructor`: every `parse`, even of no arguments, throws "already written" | only identifiers written by this loop count, so distinct identifiers always pre-populate | not executed | ParseProperties.ConstructorFlagBreaksParse | ParseSemantics.InitResults |
| src/CliParser.ts:194-197 | the entry lookup reads the identifier off the same plain object literal, so an action-scoped parameter whose identifier is an inherited member finds that member instead of a missing entry; the token and value are written onto the built-in object and the parse goes on | a spec with one action-scoped flag `--constructor` and the command line `["--constructor"]`: as written the parse returns an empty result map with no message, while every other action-scoped parameter throws | the lookup finds only entries this parse wrote, so every parameter without an entry is treated alike | not executed | ParseProperties.ActionConstructorFlagParsesOn | ParseSemantics.ParameterStep |
