/**
 * What one parse computes, as functions of the parser's tables and the shell
 * arguments: the pre-populated result map, one step of the loop, the loop run
 * to its end, and the outcome. The loop's InternalError throws (and the
 * missing-entry dereference) become an `InternalFailure` outcome.
 */
module ParseSemantics {
  import opened Wrappers
  import opened CliSpec
  import opened Compilation
  import opened TokenStream

  /** A flag's value is `true`; a string parameter's value is its argument. */
  datatype Value = Bool(b: bool) | Text(s: string)

  /** `None` stands for the source's `undefined`. */
  datatype ParsedParameterResult = ParsedParameterResult(value: Option<Value>, token: Option<Token>)

  datatype ParsedResult = ParsedResult(
    parameterResultsByIdentifier: map<string, ParsedParameterResult>,
    errorMessage: Option<string>)

  /** The ways a parse can end in an internal error instead of a result. */
  datatype InternalError =
    | DuplicateIdentifier(identifier: string)
    | UnimplementedTokenKind(tokenIndex: nat)
    | MissingResultEntry(identifier: string)

  datatype ParseOutcome = Parsed(result: ParsedResult) | InternalFailure(error: InternalError)

  /** The result and the token the loop stopped on; `None` when it reached the end of the stream. */
  datatype Final = Final(result: ParsedResult, errorToken: Option<Token>)

  /** What one iteration of the loop leads to. */
  datatype StepResult =
    | Continue(next: nat, entries: map<string, ParsedParameterResult>)
    | Halt(final: Final)
    | Fail(error: InternalError)

  const Unset := ParsedParameterResult(None, None)

  function UnrecognizedMessage(name: string): string {
    "Unrecognized command line parameter \"" + name + "\""
  }

  function MissingArgumentMessage(argumentName: string, name: string): string {
    "Missing argument " + argumentName + " for parameter \"" + name + "\""
  }

  function Identifiers(details: seq<ParamDetail>): seq<string> {
    seq(|details|, i requires 0 <= i < |details| => details[i].identifier)
  }

  ghost predicate Distinct(ids: seq<string>) {
    forall i, j :: 0 <= i < j < |ids| ==> ids[i] != ids[j]
  }

  /** `id` occurs at two different positions of `ids`. */
  ghost predicate Repeated(ids: seq<string>, id: string) {
    exists i, j :: 0 <= i < j < |ids| && ids[i] == id && ids[j] == id
  }

  // ---------------------------------------------------------------------------
  // The pre-populated result map
  // ---------------------------------------------------------------------------

  /**
   * One unset entry per identifier, in order; writing an identifier that is
   * already present is an internal error.
   */
  function InitResults(ids: seq<string>): (r: Result<map<string, ParsedParameterResult>, InternalError>)
    ensures r.Success? <==> Distinct(ids)
    ensures r.Success? ==> r.value.Keys == set id | id in ids
    ensures r.Success? ==> forall id :: id in r.value ==> r.value[id] == Unset
    ensures r.Failure? ==> r.error.DuplicateIdentifier? && Repeated(ids, r.error.identifier)
    decreases |ids|
  {
    if ids == [] then Success(map[])
    else
      var n := |ids| - 1;
      var front, id := ids[..n], ids[n];
      assert ids == front + [id];
      assert forall i :: 0 <= i < n ==> ids[i] == front[i];
      match InitResults(front)
      case Failure(e) => Failure(e)
      case Success(m) =>
        if id in m then
          assert exists i :: 0 <= i < n && front[i] == id;
          Failure(DuplicateIdentifier(id))
        else
          assert forall i :: 0 <= i < n ==> ids[i] != id;
          Success(m[id := Unset])
  }

  /** Pre-populating one more identifier: refused when it is already present, otherwise one more unset entry. */
  lemma InitResultsSnoc(ids: seq<string>, k: nat)
    requires k < |ids| && InitResults(ids[..k]).Success?
    ensures InitResults(ids[..k + 1]) ==
      if ids[k] in InitResults(ids[..k]).value then Failure(DuplicateIdentifier(ids[k]))
      else Success(InitResults(ids[..k]).value[ids[k] := Unset])
  {
    assert ids[..k + 1][..k] == ids[..k];
  }

  /** Once a prefix holds a repeated identifier, the whole pre-population fails with the same error. */
  lemma {:induction false} InitResultsStopsAtFirstDuplicate(ids: seq<string>, k: nat)
    requires k <= |ids| && InitResults(ids[..k]).Failure?
    ensures InitResults(ids) == InitResults(ids[..k])
    decreases |ids|
  {
    if k < |ids| {
      var front := ids[..|ids| - 1];
      assert front[..k] == ids[..k];
      InitResultsStopsAtFirstDuplicate(front, k);
      InitResultsKeepsRefusal(ids);
    } else {
      assert ids[..k] == ids;
    }
  }

  /** A refused prefix stays refused, with the same error, one identifier later. */
  lemma InitResultsKeepsRefusal(ids: seq<string>)
    requires ids != [] && InitResults(ids[..|ids| - 1]).Failure?
    ensures InitResults(ids) == InitResults(ids[..|ids| - 1])
  {
  }

  /** Names that every plain JavaScript object inherits, so that looking them up on `{}` finds a truthy value. */
  const ObjectPrototypeMembers: set<string> := {
    "constructor", "hasOwnProperty", "isPrototypeOf", "propertyIsEnumerable",
    "toLocaleString", "toString", "valueOf",
    "__proto__", "__defineGetter__", "__defineSetter__", "__lookupGetter__", "__lookupSetter__"
  }

  /** No identifier is a member every plain object inherits. */
  ghost predicate FreeOfPrototypeMembers(ids: seq<string>) {
    forall i :: 0 <= i < |ids| ==> ids[i] !in ObjectPrototypeMembers
  }

  /**
   * The pre-population as the source writes it: the "already written" test reads
   * the identifier off a plain object literal, so an inherited member counts too.
   */
  function InitResultsAsWritten(ids: seq<string>): (r: Result<map<string, ParsedParameterResult>, InternalError>)
    ensures r.Failure? ==> r.error.DuplicateIdentifier?
    ensures |ids| > 0 && ids[|ids| - 1] in ObjectPrototypeMembers ==> r.Failure?
    decreases |ids|
  {
    if ids == [] then Success(map[])
    else
      var n := |ids| - 1;
      var front, id := ids[..n], ids[n];
      match InitResultsAsWritten(front)
      case Failure(e) => Failure(e)
      case Success(m) =>
        if id in m || id in ObjectPrototypeMembers then Failure(DuplicateIdentifier(id))
        else Success(m[id := Unset])
  }

  /**
   * The as-written pre-population succeeds exactly when the intended one does
   * and no identifier is an inherited member, and then the two agree.
   */
  lemma {:induction false} InitResultsAsWrittenMeaning(ids: seq<string>)
    ensures InitResultsAsWritten(ids).Success? <==> InitResults(ids).Success? && FreeOfPrototypeMembers(ids)
    ensures InitResultsAsWritten(ids).Success? ==> InitResultsAsWritten(ids) == InitResults(ids)
    ensures FreeOfPrototypeMembers(ids) ==> InitResultsAsWritten(ids) == InitResults(ids)
    decreases |ids|
  {
    if ids != [] {
      var front, id := ids[..|ids| - 1], ids[|ids| - 1];
      InitResultsAsWrittenMeaning(front);
      FreeOfPrototypeMembersSnoc(ids);
      match InitResultsAsWritten(front)
      case Failure(_) =>
      case Success(m) => assert InitResults(front) == Success(m);
    }
  }

  lemma FreeOfPrototypeMembersSnoc(ids: seq<string>)
    requires ids != []
    ensures FreeOfPrototypeMembers(ids) <==>
      FreeOfPrototypeMembers(ids[..|ids| - 1]) && ids[|ids| - 1] !in ObjectPrototypeMembers
  {
    var front := ids[..|ids| - 1];
    assert forall i :: 0 <= i < |front| ==> ids[i] == front[i];
  }

  // ---------------------------------------------------------------------------
  // One iteration of the loop
  // ---------------------------------------------------------------------------

  /**
   * A recognised parameter name token, the stream already advanced to `j`: the
   * token is recorded in the parameter's entry; a flag is set to true; a string
   * parameter consumes the literal at `j`, or stops with a missing-argument
   * error when the token there is not a literal.
   */
  function ParameterStep(
    args: seq<string>, j: nat, entries: map<string, ParsedParameterResult>,
    parameter: ParamDetail, nameToken: Token): (s: StepResult)
    requires j <= |args|
    ensures s.Continue? ==> j <= s.next <= |args| && s.entries.Keys == entries.Keys
    ensures s.Halt? ==> s.final.result.parameterResultsByIdentifier.Keys == entries.Keys
    ensures s.Halt? ==> s.final.errorToken == Some(nameToken) && s.final.result.errorMessage.Some?
    ensures s.Fail? <==> parameter.identifier !in entries
  {
    var id := parameter.identifier;
    if id !in entries then Fail(MissingResultEntry(id))
    else
      var entry := entries[id].(token := Some(nameToken));
      match parameter.param.kind
      case Flag => Continue(j, entries[id := entry.(value := Some(Bool(true)))])
      case Str(argumentName) =>
        var argumentToken := MakeCurrentToken(args, j);
        if argumentToken.kind != Literal then
          Halt(Final(
            ParsedResult(entries[id := entry], Some(MissingArgumentMessage(argumentName, nameToken.value))),
            Some(nameToken)))
        else
          Continue(j + 1, entries[id := entry.(value := Some(Text(argumentToken.value)))])
  }

  /** The table a parameter token is looked up in. */
  function TableFor(tables: Tables, kind: TokenKind): map<string, ParamDetail> {
    if kind == LongParameter then tables.byLong else tables.byShort
  }

  /**
   * The loop body at position `i`: stop at the end of the stream or on an error
   * token, throw on any other non-parameter token, otherwise advance past the
   * parameter name and look it up.
   */
  function Step(tables: Tables, args: seq<string>, i: nat, entries: map<string, ParsedParameterResult>): (s: StepResult)
    requires i <= |args|
    ensures s.Continue? ==> i < s.next <= |args| && s.entries.Keys == entries.Keys
    ensures s.Halt? ==> s.final.result.parameterResultsByIdentifier.Keys == entries.Keys
    ensures s.Halt? ==> (s.final.errorToken.None? <==> s.final.result.errorMessage.None?)
    ensures s.Halt? && s.final.errorToken.None? ==> i == |args| && s.final.result.parameterResultsByIdentifier == entries
    ensures s.Halt? && s.final.errorToken.Some? ==> i < |args| && s.final.errorToken.value == MakeCurrentToken(args, i)
    ensures var t := MakeCurrentToken(args, i);
      s.Fail? <==>
        || t.kind == Literal
        || ((t.kind == LongParameter || t.kind == ShortParameter)
            && t.value in TableFor(tables, t.kind) && TableFor(tables, t.kind)[t.value].identifier !in entries)
    ensures s.Fail? ==>
      var t := MakeCurrentToken(args, i);
      s.error == if t.kind == Literal then UnimplementedTokenKind(i)
                 else MissingResultEntry(TableFor(tables, t.kind)[t.value].identifier)
  {
    var currentToken := MakeCurrentToken(args, i);
    match currentToken.kind
    case EndOfStream => Halt(Final(ParsedResult(entries, None), None))
    case Error => Halt(Final(ParsedResult(entries, currentToken.errorMessage), Some(currentToken)))
    case Literal => Fail(UnimplementedTokenKind(i))
    case _ =>
      var table := TableFor(tables, currentToken.kind);
      if currentToken.value !in table then
        Halt(Final(ParsedResult(entries, Some(UnrecognizedMessage(currentToken.value))), Some(currentToken)))
      else
        ParameterStep(args, i + 1, entries, table[currentToken.value], currentToken)
  }

  /** The loop from position `i` until it stops or throws. */
  function Run(tables: Tables, args: seq<string>, i: nat, entries: map<string, ParsedParameterResult>)
    : Result<Final, InternalError>
    requires i <= |args|
    decreases |args| - i
  {
    match Step(tables, args, i, entries)
    case Continue(next, entries') => Run(tables, args, next, entries')
    case Halt(final) => Success(final)
    case Fail(error) => Failure(error)
  }

  /** A parse with the given tables and global parameters. */
  function Parse(tables: Tables, globals: seq<ParamDetail>, args: seq<string>): ParseOutcome {
    match InitResults(Identifiers(globals))
    case Failure(error) => InternalFailure(error)
    case Success(entries) =>
      match Run(tables, args, 0, entries)
      case Failure(error) => InternalFailure(error)
      case Success(final) => Parsed(final.result)
  }

  // ---------------------------------------------------------------------------
  // The loop as written: lookups on a plain object literal
  // ---------------------------------------------------------------------------

  /** The result object has no own entry for `id`, but every plain object inherits a member of that name. */
  predicate InheritedLookup(keys: set<string>, id: string) {
    id !in keys && id in ObjectPrototypeMembers
  }

  /**
   * A recognised parameter whose identifier is only an inherited member: the
   * lookup finds that inherited object, and the token and value are written onto
   * it, not into the result map. A string parameter still consumes its literal,
   * or stops with the missing-argument message.
   */
  function InheritedParameterStep(
    args: seq<string>, j: nat, entries: map<string, ParsedParameterResult>,
    parameter: ParamDetail, nameToken: Token): (s: StepResult)
    requires j <= |args|
    ensures !s.Fail?
    ensures s.Continue? ==> j <= s.next <= |args| && s.entries == entries
    ensures s.Halt? ==> s.final.result.parameterResultsByIdentifier == entries
    ensures s.Halt? ==> s.final.errorToken == Some(nameToken) && s.final.result.errorMessage.Some?
  {
    match parameter.param.kind
    case Flag => Continue(j, entries)
    case Str(argumentName) =>
      var argumentToken := MakeCurrentToken(args, j);
      if argumentToken.kind != Literal then
        Halt(Final(
          ParsedResult(entries, Some(MissingArgumentMessage(argumentName, nameToken.value))),
          Some(nameToken)))
      else
        Continue(j + 1, entries)
  }

  /**
   * One iteration as the source writes it: the same as `Step`, except that a
   * recognised parameter whose identifier is only inherited goes on with the
   * result map untouched instead of failing on a missing entry.
   */
  function StepAsWritten(tables: Tables, args: seq<string>, i: nat, entries: map<string, ParsedParameterResult>)
    : (s: StepResult)
    requires i <= |args|
    ensures s.Continue? ==> i < s.next <= |args| && s.entries.Keys == entries.Keys
    ensures s.Halt? ==> s.final.result.parameterResultsByIdentifier.Keys == entries.Keys
  {
    var currentToken := MakeCurrentToken(args, i);
    var table := TableFor(tables, currentToken.kind);
    if (currentToken.kind == LongParameter || currentToken.kind == ShortParameter)
      && currentToken.value in table && InheritedLookup(entries.Keys, table[currentToken.value].identifier)
    then InheritedParameterStep(args, i + 1, entries, table[currentToken.value], currentToken)
    else Step(tables, args, i, entries)
  }

  function RunAsWritten(tables: Tables, args: seq<string>, i: nat, entries: map<string, ParsedParameterResult>)
    : Result<Final, InternalError>
    requires i <= |args|
    decreases |args| - i
  {
    match StepAsWritten(tables, args, i, entries)
    case Continue(next, entries') => RunAsWritten(tables, args, next, entries')
    case Halt(final) => Success(final)
    case Fail(error) => Failure(error)
  }

  /**
   * The parse as the source writes it: the same loop with the as-written lookup,
   * after the pre-population that also counts inherited members as already written.
   */
  function ParseAsWritten(tables: Tables, globals: seq<ParamDetail>, args: seq<string>): (o: ParseOutcome)
    ensures !FreeOfPrototypeMembers(Identifiers(globals)) ==> o.InternalFailure? && o.error.DuplicateIdentifier?
  {
    var ids := Identifiers(globals);
    InitResultsAsWrittenMeaning(ids);
    match InitResultsAsWritten(ids)
    case Failure(error) => InternalFailure(error)
    case Success(entries) =>
      match RunAsWritten(tables, args, 0, entries)
      case Failure(error) => InternalFailure(error)
      case Success(final) => Parsed(final.result)
  }
}
