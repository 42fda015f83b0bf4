/**
 * The parser object: construction fills its lookup tables in place, and each
 * parse runs the token loop over a fresh parser state. Every method is proved
 * to compute what the functions of `Compilation` and `ParseSemantics` describe.
 */
module CliParser {
  import opened Wrappers
  import opened TokenSyntax
  import opened TokenStream
  import opened CliSpec
  import opened Compilation
  import opened ParseSemantics

  /** The state of one parse: the stream, the token an error was met on, and the result built so far. */
  class ParserState {
    const tokenStream: TokenStream
    var errorToken: Option<Token>
    var result: ParsedResult

    constructor (args: seq<string>)
      ensures fresh(tokenStream) && tokenStream.Valid()
      ensures tokenStream.shellArgs == args && tokenStream.tokenIndex == 0
      ensures errorToken.None? && result == ParsedResult(map[], None)
    {
      tokenStream := new TokenStream(args);
      errorToken := None;
      result := ParsedResult(map[], None);
    }
  }

  class CliParser {
    var parametersByLongName: map<string, ParamDetail>
    var parametersByShortName: map<string, ParamDetail>
    var globalParameters: seq<ParamDetail>
    var actionParameters: seq<ParamDetail>
    var actionsByName: map<string, ActionDetail>

    /** The two name tables, as the parse functions take them. */
    function Lookup(): Tables
      reads this
    {
      Tables(parametersByLongName, parametersByShortName)
    }

    constructor Empty()
      ensures Lookup() == Tables(map[], map[])
      ensures globalParameters == [] && actionParameters == [] && actionsByName == map[]
    {
      parametersByLongName := map[];
      parametersByShortName := map[];
      globalParameters := [];
      actionParameters := [];
      actionsByName := map[];
    }

    /** Registers one parameter in the name tables, or reports the name it clashes on. */
    method CreateParameterDetail(parameter: Param) returns (r: Result<ParamDetail, SpecError>)
      modifies this`parametersByLongName, this`parametersByShortName
      ensures r.Failure? <==> AddParameter(old(Lookup()), parameter).Failure?
      ensures r.Failure? ==> r.error == AddParameter(old(Lookup()), parameter).error && Lookup() == old(Lookup())
      ensures r.Success? ==> r.value == Detail(parameter) && Lookup() == AddParameter(old(Lookup()), parameter).value
    {
      if parameter.longName in parametersByLongName {
        return Failure(DuplicateLongName(parameter.longName));
      }
      if HasShortName(parameter) {
        if parameter.shortName.value in parametersByShortName {
          return Failure(DuplicateShortName(parameter.shortName.value));
        }
      }
      var identifier := ConvertParameterLongNameToIdentifier(parameter.longName);
      var parameterDetail := ParamDetail(parameter, identifier);
      parametersByLongName := parametersByLongName[parameter.longName := parameterDetail];
      if HasShortName(parameter) {
        parametersByShortName := parametersByShortName[parameter.shortName.value := parameterDetail];
      }
      r := Success(parameterDetail);
    }

    /**
     * Registers parameters in order after those of `before`, collecting their
     * details; the first clash stops the loop.
     */
    method RegisterParameters(ps: seq<Param>, ghost before: seq<Param>) returns (details: seq<ParamDetail>, err: Option<SpecError>)
      requires AddParameters(before) == Success(Lookup())
      modifies this`parametersByLongName, this`parametersByShortName
      ensures err.None? ==> AddParameters(before + ps) == Success(Lookup()) && details == Details(ps)
      ensures err.Some? ==> AddParameters(before + ps) == Failure(err.value)
    {
      assert ps[..0] == [] && before + [] == before;
      details := [];
      for k := 0 to |ps|
        invariant AddParameters(before + ps[..k]) == Success(Lookup())
        invariant details == Details(ps[..k])
      {
        AddParametersAppend(before, ps, k);
        DetailsSnoc(ps, k);
        var d := CreateParameterDetail(ps[k]);
        if d.Failure? {
          AddParametersAppendRefusal(before, ps, k + 1);
          return details, Some(d.error);
        }
        details := details + [d.value];
      }
      assert ps[..|ps|] == ps;
      err := None;
    }

    /** The details of the parameters an action names, or the first name that is not defined. */
    method ResolveAssociatedParameters(action: Action) returns (r: Result<set<ParamDetail>, SpecError>)
      ensures r == ResolveAssociated(parametersByLongName, action.actionName, action.associatedParameterLongNames)
    {
      var names := action.associatedParameterLongNames;
      var associatedParameters: set<ParamDetail> := {};
      for m := 0 to |names|
        invariant ResolveAssociated(parametersByLongName, action.actionName, names[..m]) == Success(associatedParameters)
      {
        var parameterLongName := names[m];
        ResolveSnoc(parametersByLongName, action.actionName, names, m);
        if parameterLongName !in parametersByLongName {
          ResolveStopsAtFirstUndefined(parametersByLongName, action.actionName, names, m + 1);
          return Failure(UndefinedAssociatedParameter(action.actionName, parameterLongName));
        }
        associatedParameters := associatedParameters + {parametersByLongName[parameterLongName]};
      }
      assert names[..|names|] == names;
      r := Success(associatedParameters);
    }

    /** Registers the actions in order; the first repeated name or undefined parameter stops the loop. */
    method RegisterActions(actions: seq<Action>) returns (err: Option<SpecError>)
      requires actionsByName == map[]
      modifies this`actionsByName
      ensures err.None? ==> AddActions(parametersByLongName, actions) == Success(actionsByName)
      ensures err.Some? ==> AddActions(parametersByLongName, actions) == Failure(err.value)
    {
      for k := 0 to |actions|
        invariant AddActions(parametersByLongName, actions[..k]) == Success(actionsByName)
      {
        var action := actions[k];
        AddActionsSnoc(parametersByLongName, actions, k);
        if action.actionName in actionsByName {
          AddActionsStopsAtFirstRefusal(parametersByLongName, actions, k + 1);
          return Some(DuplicateActionName(action.actionName));
        }
        var associated := ResolveAssociatedParameters(action);
        if associated.Failure? {
          AddActionsStopsAtFirstRefusal(parametersByLongName, actions, k + 1);
          return Some(associated.error);
        }
        actionsByName := actionsByName[action.actionName := ActionDetail(action, associated.value)];
      }
      assert actions[..|actions|] == actions;
      err := None;
    }

    /** The body of the source's constructor: global parameters, action parameters, then actions. */
    method Construct(spec: Spec) returns (err: Option<SpecError>)
      requires Lookup() == Tables(map[], map[])
      requires globalParameters == [] && actionParameters == [] && actionsByName == map[]
      modifies this
      ensures err.None? <==> Compile(spec).Success?
      ensures err.Some? ==> err.value == Compile(spec).error
      ensures err.None? ==>
        var c := Compile(spec).value;
        && Lookup() == c.tables
        && globalParameters == c.globalParameters
        && actionParameters == c.actionParameters
        && actionsByName == c.actionsByName
    {
      var globals, locals := spec.globalParameters, spec.actionParameters;
      assert [] + globals == globals;
      var details;
      details, err := RegisterParameters(globals, []);
      if err.Some? {
        AddParametersStopsAtFirstRefusal(AllParameters(spec), |globals|);
        assert AllParameters(spec)[..|globals|] == globals;
        return;
      }
      globalParameters := details;
      details, err := RegisterParameters(locals, globals);
      if err.Some? {
        return;
      }
      actionParameters := details;
      err := RegisterActions(spec.actions);
    }

    /** Compiles a spec into a parser, or reports why the spec is refused. */
    static method CreateFromSpec(spec: Spec) returns (r: Result<CliParser, SpecError>)
      ensures r.Failure? <==> !WellFormed(spec)
      ensures r.Failure? ==> Compile(spec).Failure? && r.error == Compile(spec).error
      ensures r.Success? ==>
        Compile(spec).Success? &&
        var c := Compile(spec).value;
        && fresh(r.value)
        && r.value.Lookup() == c.tables
        && r.value.globalParameters == c.globalParameters
        && r.value.actionParameters == c.actionParameters
        && r.value.actionsByName == c.actionsByName
    {
      CompileMeaning(spec);
      var parser := new CliParser.Empty();
      var err := parser.Construct(spec);
      if err.Some? {
        r := Failure(err.value);
      } else {
        r := Success(parser);
      }
    }

    /** Writes one unset entry per parameter into a fresh result, refusing an identifier written before. */
    method CreateParameterValues(parserState: ParserState, parameters: seq<ParamDetail>)
      returns (failure: Option<InternalError>)
      requires parserState.result.parameterResultsByIdentifier == map[]
      modifies parserState
      ensures parserState.errorToken == old(parserState.errorToken)
      ensures failure.None? <==> InitResults(Identifiers(parameters)).Success?
      ensures failure.Some? ==> failure.value == InitResults(Identifiers(parameters)).error
      ensures failure.None? ==>
        parserState.result == old(parserState.result).(parameterResultsByIdentifier := InitResults(Identifiers(parameters)).value)
    {
      ghost var ids := Identifiers(parameters);
      for k := 0 to |parameters|
        invariant InitResults(ids[..k]) == Success(parserState.result.parameterResultsByIdentifier)
        invariant parserState.result.errorMessage == old(parserState.result.errorMessage)
        invariant parserState.errorToken == old(parserState.errorToken)
      {
        var identifier := parameters[k].identifier;
        var entries := parserState.result.parameterResultsByIdentifier;
        assert ids[k] == identifier;
        InitResultsSnoc(ids, k);
        if identifier in entries {
          InitResultsStopsAtFirstDuplicate(ids, k + 1);
          return Some(DuplicateIdentifier(identifier));
        }
        parserState.result := parserState.result.(parameterResultsByIdentifier := entries[identifier := Unset]);
      }
      assert ids[..|parameters|] == ids;
      failure := None;
    }

    /**
     * Records a recognised parameter name in its entry and reads its value: `true`
     * for a flag, the next literal for a string parameter.
     */
    method ParseParameter(parameter: ParamDetail, parameterNameToken: Token, parserState: ParserState)
      returns (failure: Option<InternalError>)
      requires parserState.tokenStream.Valid()
      modifies parserState, parserState.tokenStream
      ensures parserState.tokenStream.Valid()
      ensures parserState.errorToken == old(parserState.errorToken)
      ensures
        var s := ParameterStep(
          parserState.tokenStream.shellArgs, old(parserState.tokenStream.tokenIndex),
          old(parserState.result.parameterResultsByIdentifier), parameter, parameterNameToken);
        match s
        case Fail(error) => failure == Some(error)
        case Continue(next, entries) =>
          && failure.None?
          && parserState.tokenStream.tokenIndex == next
          && parserState.result == ParsedResult(entries, old(parserState.result.errorMessage))
        case Halt(final) =>
          failure.None? && parserState.result == final.result
    {
      var identifier := parameter.identifier;
      if identifier !in parserState.result.parameterResultsByIdentifier {
        return Some(MissingResultEntry(identifier));
      }
      var result := parserState.result.parameterResultsByIdentifier[identifier];
      result := result.(token := Some(parameterNameToken));
      var entries := parserState.result.parameterResultsByIdentifier;
      parserState.result := parserState.result.(parameterResultsByIdentifier := entries[identifier := result]);
      match parameter.param.kind {
        case Flag =>
          result := result.(value := Some(Bool(true)));
          parserState.result := parserState.result.(parameterResultsByIdentifier := entries[identifier := result]);
        case Str(argumentName) =>
          var argumentToken := parserState.tokenStream.CurrentToken();
          if argumentToken.kind != Literal {
            var message := MissingArgumentMessage(argumentName, parameterNameToken.value);
            parserState.result := parserState.result.(errorMessage := Some(message));
            return None;
          }
          parserState.tokenStream.Advance();
          result := result.(value := Some(Text(argumentToken.value)));
          parserState.result := parserState.result.(parameterResultsByIdentifier := entries[identifier := result]);
      }
      failure := None;
    }

    /**
     * One iteration of the parse loop: stops at the end of the stream or on an
     * error token, throws on any other token that is not a parameter name,
     * otherwise advances past the name and reads the parameter. `stop` is the
     * loop's `break`.
     */
    method ParseNextToken(parserState: ParserState) returns (failure: Option<InternalError>, stop: bool)
      requires parserState.tokenStream.Valid()
      requires parserState.result.errorMessage.None?
      modifies parserState, parserState.tokenStream
      ensures parserState.tokenStream.Valid()
      ensures
        var s := Step(
          Lookup(), parserState.tokenStream.shellArgs, old(parserState.tokenStream.tokenIndex),
          old(parserState.result.parameterResultsByIdentifier));
        match s
        case Fail(error) => failure == Some(error)
        case Continue(next, entries) =>
          && failure.None? && !stop
          && parserState.tokenStream.tokenIndex == next
          && parserState.result == ParsedResult(entries, None)
        case Halt(final) =>
          && failure.None? && stop
          && parserState.result == final.result
          && parserState.errorToken == final.errorToken
    {
      var currentToken := parserState.tokenStream.CurrentToken();
      if currentToken.kind == EndOfStream {
        parserState.errorToken := None;
        return None, true;
      }
      parserState.errorToken := Some(currentToken);
      match currentToken.kind {
        case Error =>
          parserState.result := parserState.result.(errorMessage := currentToken.errorMessage);
        case LongParameter =>
          parserState.tokenStream.Advance();
          if currentToken.value !in parametersByLongName {
            var message := UnrecognizedMessage(currentToken.value);
            parserState.result := parserState.result.(errorMessage := Some(message));
          } else {
            failure := ParseParameter(parametersByLongName[currentToken.value], currentToken, parserState);
            if failure.Some? {
              return failure, true;
            }
          }
        case ShortParameter =>
          parserState.tokenStream.Advance();
          if currentToken.value !in parametersByShortName {
            var message := UnrecognizedMessage(currentToken.value);
            parserState.result := parserState.result.(errorMessage := Some(message));
          } else {
            failure := ParseParameter(parametersByShortName[currentToken.value], currentToken, parserState);
            if failure.Some? {
              return failure, true;
            }
          }
        case _ =>
          return Some(UnimplementedTokenKind(currentToken.tokenIndex)), true;
      }
      failure := None;
      stop := parserState.result.errorMessage.Some?;
    }

    /**
     * One forward pass over the arguments that stops at the first error. The
     * outcome is the one the parse function gives for these tables, and the
     * parser itself is left as it was.
     */
    method Parse(shellArgs: seq<string>) returns (outcome: ParseOutcome)
      ensures outcome == ParseSemantics.Parse(Lookup(), globalParameters, shellArgs)
    {
      var parserState := new ParserState(shellArgs);
      var failure := CreateParameterValues(parserState, globalParameters);
      if failure.Some? {
        return InternalFailure(failure.value);
      }
      ghost var expected := Run(Lookup(), shellArgs, 0, parserState.result.parameterResultsByIdentifier);
      while true
        invariant fresh(parserState) && fresh(parserState.tokenStream)
        invariant parserState.tokenStream.Valid() && parserState.tokenStream.shellArgs == shellArgs
        invariant parserState.result.errorMessage.None?
        invariant Run(Lookup(), shellArgs, parserState.tokenStream.tokenIndex, parserState.result.parameterResultsByIdentifier)
          == expected
        decreases |shellArgs| - parserState.tokenStream.tokenIndex
      {
        var stop;
        failure, stop := ParseNextToken(parserState);
        if failure.Some? {
          return InternalFailure(failure.value);
        }
        if stop {
          break;
        }
      }
      outcome := Parsed(parserState.result);
    }
  }
}
