/**
 * Properties of the parse loop: what a run keeps, where it stops and why, that
 * it looks no further than the token after the one it stopped on, that a clean
 * run can be resumed on more arguments, and that the last occurrence of a
 * parameter decides its entry.
 */
module ParseProperties {
  import opened Wrappers
  import opened TokenSyntax
  import opened TokenStream
  import opened CliSpec
  import opened Compilation
  import opened ParseSemantics

  /** The run reached the end of the stream without an error. */
  ghost predicate Clean(r: Result<Final, InternalError>) {
    r.Success? && r.value.errorToken.None?
  }

  /** The token at `k` is a parameter name present in its table. */
  ghost predicate IsParameterName(tables: Tables, args: seq<string>, k: nat) {
    var t := MakeCurrentToken(args, k);
    (t.kind == LongParameter || t.kind == ShortParameter) && t.value in TableFor(tables, t.kind)
  }

  ghost function ParameterAt(tables: Tables, args: seq<string>, k: nat): ParamDetail
    requires IsParameterName(tables, args, k)
  {
    var t := MakeCurrentToken(args, k);
    TableFor(tables, t.kind)[t.value]
  }

  /** The token at `k` names the parameter with identifier `id`. */
  ghost predicate NamesIdentifier(tables: Tables, args: seq<string>, k: nat, id: string) {
    IsParameterName(tables, args, k) && ParameterAt(tables, args, k).identifier == id
  }

  /**
   * The entry an occurrence at `k` leaves behind: the name token, and `true` for
   * a flag or the raw following argument for a string parameter.
   */
  ghost function OccurrenceEntry(tables: Tables, args: seq<string>, k: nat): ParsedParameterResult
    requires IsParameterName(tables, args, k)
  {
    var value := match ParameterAt(tables, args, k).param.kind
      case Flag => Bool(true)
      case Str(_) => Text(MakeCurrentToken(args, k + 1).value);
    ParsedParameterResult(Some(value), Some(MakeCurrentToken(args, k)))
  }

  /**
   * The three reasons the loop stops with an error: the token is an Error token
   * and its message is reported; the name is in no table; or a string parameter
   * is not followed by a literal.
   */
  ghost predicate ExplainsError(tables: Tables, args: seq<string>, t: Token, message: Option<string>) {
    || (t.kind == Error && message == t.errorMessage)
    || ((t.kind == LongParameter || t.kind == ShortParameter)
        && t.value !in TableFor(tables, t.kind)
        && message == Some(UnrecognizedMessage(t.value)))
    || ((t.kind == LongParameter || t.kind == ShortParameter)
        && t.value in TableFor(tables, t.kind)
        && TableFor(tables, t.kind)[t.value].param.kind.Str?
        && MakeCurrentToken(args, t.tokenIndex + 1).kind != Literal
        && message == Some(MissingArgumentMessage(TableFor(tables, t.kind)[t.value].param.kind.argumentName, t.value)))
  }

  // ---------------------------------------------------------------------------
  // The shape of a run
  // ---------------------------------------------------------------------------

  /**
   * A run that does not throw keeps exactly the entries it started with; it
   * reports an error message exactly when it stopped on a token, and that token
   * is the one at its own position, at or after the start.
   */
  lemma {:induction false} RunShape(tables: Tables, args: seq<string>, i: nat, entries: map<string, ParsedParameterResult>)
    requires i <= |args|
    ensures Run(tables, args, i, entries).Success? ==>
      var f := Run(tables, args, i, entries).value;
      && f.result.parameterResultsByIdentifier.Keys == entries.Keys
      && (f.errorToken.None? <==> f.result.errorMessage.None?)
      && (f.errorToken.Some? ==>
            && i <= f.errorToken.value.tokenIndex < |args|
            && f.errorToken.value == MakeCurrentToken(args, f.errorToken.value.tokenIndex))
    decreases |args| - i
  {
    match Step(tables, args, i, entries)
    case Continue(next, entries') => RunShape(tables, args, next, entries');
    case Halt(_) =>
    case Fail(_) =>
  }

  /**
   * An iteration that goes on consumed a parameter name found in its table,
   * wrote that parameter's entry and no other, and moved past the name and, for
   * a string parameter, past the literal it took as the value.
   */
  lemma ContinueStep(tables: Tables, args: seq<string>, i: nat, entries: map<string, ParsedParameterResult>)
    requires i <= |args| && Step(tables, args, i, entries).Continue?
    ensures IsParameterName(tables, args, i)
    ensures ParameterAt(tables, args, i).identifier in entries
    ensures Step(tables, args, i, entries).entries ==
      entries[ParameterAt(tables, args, i).identifier := OccurrenceEntry(tables, args, i)]
    ensures ParameterAt(tables, args, i).param.kind.Flag? ==> Step(tables, args, i, entries).next == i + 1
    ensures ParameterAt(tables, args, i).param.kind.Str? ==>
      Step(tables, args, i, entries).next == i + 2 && MakeCurrentToken(args, i + 1).kind == Literal
  {
  }

  /**
   * An iteration that stops on a recognised parameter name stopped because a
   * string parameter lacks its argument; its entry already holds the name
   * token but keeps its previous value.
   */
  lemma MissingArgumentRecordsToken(tables: Tables, args: seq<string>, i: nat, entries: map<string, ParsedParameterResult>)
    requires i <= |args| && Step(tables, args, i, entries).Halt? && IsParameterName(tables, args, i)
    ensures ParameterAt(tables, args, i).param.kind.Str?
    ensures MakeCurrentToken(args, i + 1).kind != Literal
    ensures var id := ParameterAt(tables, args, i).identifier;
      && id in entries
      && Step(tables, args, i, entries).final.result.parameterResultsByIdentifier ==
           entries[id := entries[id].(token := Some(MakeCurrentToken(args, i)))]
  {
  }

  // ---------------------------------------------------------------------------
  // Only a prefix of the arguments is looked at
  // ---------------------------------------------------------------------------

  lemma TokenOfPrefix(a: seq<string>, b: seq<string>, k: nat)
    requires k < |a|
    ensures MakeCurrentToken(a + b, k) == MakeCurrentToken(a, k)
  {
    assert (a + b)[k] == a[k];
  }

  /**
   * One iteration at a position of `a` reads at most the token there and the
   * one after it; so it is the same on `a + b` unless it looked past the end of `a`.
   */
  lemma StepOfPrefix(tables: Tables, a: seq<string>, b: seq<string>, i: nat, entries: map<string, ParsedParameterResult>)
    requires i < |a|
    requires i + 1 < |a| || Step(tables, a, i, entries).Continue?
    ensures Step(tables, a + b, i, entries) == Step(tables, a, i, entries)
  {
    TokenOfPrefix(a, b, i);
    if i + 1 < |a| {
      TokenOfPrefix(a, b, i + 1);
      StepFromTokens(tables, a, a + b, i, entries);
    } else {
      StepOfFlag(tables, a, a + b, i, entries);
    }
  }

  /** One iteration is decided by the token at `i` and the one after it. */
  lemma StepFromTokens(tables: Tables, a: seq<string>, c: seq<string>, i: nat, entries: map<string, ParsedParameterResult>)
    requires i < |a| && i < |c|
    requires MakeCurrentToken(a, i) == MakeCurrentToken(c, i)
    requires MakeCurrentToken(a, i + 1) == MakeCurrentToken(c, i + 1)
    ensures Step(tables, a, i, entries) == Step(tables, c, i, entries)
  {
  }

  /**
   * An iteration at the last argument that goes on read no argument token after
   * its parameter name, so it is the same wherever the token at `i` is the same.
   */
  lemma StepOfFlag(tables: Tables, a: seq<string>, c: seq<string>, i: nat, entries: map<string, ParsedParameterResult>)
    requires i + 1 == |a| && i < |c|
    requires MakeCurrentToken(a, i) == MakeCurrentToken(c, i)
    requires Step(tables, a, i, entries).Continue?
    ensures Step(tables, c, i, entries) == Step(tables, a, i, entries)
  {
    assert MakeCurrentToken(a, i + 1).kind == EndOfStream;
  }

  /** Conversely, an iteration on `a + b` that stays within `a` is the same on `a` alone. */
  lemma StepOfPrefixBack(tables: Tables, a: seq<string>, b: seq<string>, i: nat, entries: map<string, ParsedParameterResult>)
    requires i < |a|
    requires Step(tables, a + b, i, entries).Continue? && Step(tables, a + b, i, entries).next <= |a|
    ensures Step(tables, a, i, entries) == Step(tables, a + b, i, entries)
  {
    if i + 1 < |a| {
      StepOfPrefix(tables, a, b, i, entries);
    } else {
      TokenOfPrefix(a, b, i);
      StepOfFlagBack(tables, a, a + b, i, entries);
    }
  }

  /** Conversely, an iteration that goes on but stops at the end of `a` read no argument token. */
  lemma StepOfFlagBack(tables: Tables, a: seq<string>, c: seq<string>, i: nat, entries: map<string, ParsedParameterResult>)
    requires i + 1 == |a| && i < |c|
    requires MakeCurrentToken(a, i) == MakeCurrentToken(c, i)
    requires Step(tables, c, i, entries).Continue? && Step(tables, c, i, entries).next <= |a|
    ensures Step(tables, a, i, entries) == Step(tables, c, i, entries)
  {
  }

  /**
   * A run that stopped on the token at `k`, with a token after it, read nothing
   * beyond position `k + 1`: any further arguments leave it unchanged.
   */
  lemma {:induction false} RunIgnoresLaterArguments(
    tables: Tables, a: seq<string>, b: seq<string>, i: nat, entries: map<string, ParsedParameterResult>)
    requires i <= |a|
    requires Run(tables, a, i, entries).Success? && Run(tables, a, i, entries).value.errorToken.Some?
    requires Run(tables, a, i, entries).value.errorToken.value.tokenIndex + 1 < |a|
    ensures Run(tables, a + b, i, entries) == Run(tables, a, i, entries)
    decreases |a| - i
  {
    RunShape(tables, a, i, entries);
    match Step(tables, a, i, entries)
    case Continue(next, entries') =>
      StepOfPrefix(tables, a, b, i, entries);
      RunIgnoresLaterArguments(tables, a, b, next, entries');
    case Halt(_) =>
      StepOfPrefix(tables, a, b, i, entries);
    case Fail(_) =>
  }

  /**
   * A run of `a` that reached the end of the stream cleanly goes the same way on
   * `a + b` and then carries on from position `|a|` with the entries it had.
   */
  lemma {:induction false} RunResumes(
    tables: Tables, a: seq<string>, b: seq<string>, i: nat, entries: map<string, ParsedParameterResult>)
    requires i <= |a|
    requires Clean(Run(tables, a, i, entries))
    ensures Run(tables, a + b, i, entries) ==
      Run(tables, a + b, |a|, Run(tables, a, i, entries).value.result.parameterResultsByIdentifier)
    decreases |a| - i
  {
    if i < |a| {
      match Step(tables, a, i, entries)
      case Continue(next, entries') =>
        StepOfPrefix(tables, a, b, i, entries);
        RunResumes(tables, a, b, next, entries');
      case Halt(_) =>
      case Fail(_) =>
    }
  }

  /** An iteration that stops on a token stops for one of the three reasons. */
  lemma HaltIsExplained(tables: Tables, args: seq<string>, i: nat, entries: map<string, ParsedParameterResult>)
    requires i <= |args|
    requires Step(tables, args, i, entries).Halt? && Step(tables, args, i, entries).final.errorToken.Some?
    ensures var f := Step(tables, args, i, entries).final;
      ExplainsError(tables, args, f.errorToken.value, f.result.errorMessage)
  {
  }

  /** A clean run of a prefix from the next position extends back over an iteration that stayed within it. */
  lemma CleanPrefixBack(
    tables: Tables, args: seq<string>, k: nat, i: nat, entries: map<string, ParsedParameterResult>,
    next: nat, entries': map<string, ParsedParameterResult>)
    requires i < k <= |args|
    requires Step(tables, args, i, entries) == Continue(next, entries') && next <= k
    requires Clean(Run(tables, args[..k], next, entries'))
    ensures Clean(Run(tables, args[..k], i, entries))
  {
    var a, b := args[..k], args[k..];
    assert args == a + b;
    StepOfPrefixBack(tables, a, b, i, entries);
  }

  /**
   * The first error is sticky: a run that stopped on the token at `k` ran
   * cleanly over the arguments before `k`, and the message it reports is the
   * one that token explains.
   */
  lemma {:induction false} RunStopsAtFirstError(tables: Tables, args: seq<string>, i: nat, entries: map<string, ParsedParameterResult>)
    requires i <= |args|
    requires Run(tables, args, i, entries).Success? && Run(tables, args, i, entries).value.errorToken.Some?
    ensures var f := Run(tables, args, i, entries).value;
      var k := f.errorToken.value.tokenIndex;
      && i <= k < |args|
      && f.errorToken.value == MakeCurrentToken(args, k)
      && Clean(Run(tables, args[..k], i, entries))
      && ExplainsError(tables, args, f.errorToken.value, f.result.errorMessage)
    decreases |args| - i
  {
    RunShape(tables, args, i, entries);
    var k := Run(tables, args, i, entries).value.errorToken.value.tokenIndex;
    match Step(tables, args, i, entries)
    case Continue(next, entries') =>
      RunShape(tables, args, next, entries');
      RunStopsAtFirstError(tables, args, next, entries');
      CleanPrefixBack(tables, args, k, i, entries, next, entries');
    case Halt(_) =>
      HaltIsExplained(tables, args, i, entries);
      assert args[..i] == args[..k];
    case Fail(_) =>
  }

  /**
   * A positional word where a parameter name is expected makes the parse throw,
   * whatever arguments follow it.
   */
  lemma StrayLiteralThrows(
    tables: Tables, a: seq<string>, word: string, b: seq<string>, i: nat, entries: map<string, ParsedParameterResult>)
    requires i <= |a| && Clean(Run(tables, a, i, entries))
    requires !StartsWith(word, "-")
    ensures Run(tables, a + ([word] + b), i, entries) == Failure(UnimplementedTokenKind(|a|))
  {
    RunResumes(tables, a, [word] + b, i, entries);
    assert (a + ([word] + b))[|a|] == word;
  }

  /**
   * A recognised name, long or short, whose identifier has no entry makes the
   * parse throw on that entry once a clean run reaches it, whatever arguments
   * follow it.
   */
  lemma UnpopulatedNameThrows(
    tables: Tables, a: seq<string>, name: string, b: seq<string>, i: nat, entries: map<string, ParsedParameterResult>)
    requires i <= |a| && Clean(Run(tables, a, i, entries))
    requires IsParameterName(tables, a + ([name] + b), |a|)
    requires ParameterAt(tables, a + ([name] + b), |a|).identifier !in entries
    ensures Run(tables, a + ([name] + b), i, entries) ==
      Failure(MissingResultEntry(ParameterAt(tables, a + ([name] + b), |a|).identifier))
  {
    RunResumes(tables, a, [name] + b, i, entries);
    RunShape(tables, a, i, entries);
  }

  // ---------------------------------------------------------------------------
  // What a clean run leaves in each entry
  // ---------------------------------------------------------------------------

  /**
   * After a clean run, an entry nobody named keeps its value; otherwise it holds
   * what the last occurrence of a name of that parameter left: later
   * occurrences overwrite earlier ones.
   */
  lemma {:induction false} LastOccurrenceWins(
    tables: Tables, args: seq<string>, i: nat, entries: map<string, ParsedParameterResult>, id: string)
    requires i <= |args| && Clean(Run(tables, args, i, entries)) && id in entries
    ensures var m := Run(tables, args, i, entries).value.result.parameterResultsByIdentifier;
      && id in m
      && ((forall k :: i <= k < |args| ==> !NamesIdentifier(tables, args, k, id)) ==> m[id] == entries[id])
      && (forall k :: i <= k < |args| && NamesIdentifier(tables, args, k, id)
            && (forall k' :: k < k' < |args| ==> !NamesIdentifier(tables, args, k', id))
            ==> m[id] == OccurrenceEntry(tables, args, k))
    decreases |args| - i
  {
    RunShape(tables, args, i, entries);
    var m := Run(tables, args, i, entries).value.result.parameterResultsByIdentifier;
    if i < |args| {
      match Step(tables, args, i, entries)
      case Continue(next, entries') =>
        ContinueStep(tables, args, i, entries);
        LastOccurrenceWins(tables, args, next, entries', id);
        var own := ParameterAt(tables, args, i).identifier;
        assert NamesIdentifier(tables, args, i, own);
        assert next == i + 2 ==> !NamesIdentifier(tables, args, i + 1, id);
        if forall k :: next <= k < |args| ==> !NamesIdentifier(tables, args, k, id) {
          assert m[id] == entries'[id];
          forall k | i <= k < |args| && NamesIdentifier(tables, args, k, id)
            && (forall k' :: k < k' < |args| ==> !NamesIdentifier(tables, args, k', id))
            ensures m[id] == OccurrenceEntry(tables, args, k)
          {
            assert k == i;
          }
        } else {
          forall k | i <= k < |args| && NamesIdentifier(tables, args, k, id)
            && (forall k' :: k < k' < |args| ==> !NamesIdentifier(tables, args, k', id))
            ensures m[id] == OccurrenceEntry(tables, args, k)
          {
            var k2 :| next <= k2 < |args| && NamesIdentifier(tables, args, k2, id);
            assert next <= k;
          }
        }
      case Halt(_) =>
      case Fail(_) =>
    }
  }

  // ---------------------------------------------------------------------------
  // Parsing with the tables of a compiled spec
  // ---------------------------------------------------------------------------

  lemma IdentifiersOfDetails(ps: seq<Param>)
    ensures |Identifiers(Details(ps))| == |ps|
    ensures forall i :: 0 <= i < |ps| ==> Identifiers(Details(ps))[i] == ToIdentifier(ps[i].longName)
  {
  }

  /**
   * With valid long names the global identifiers are distinct, because the
   * conversion is injective on long names; so the result map can always be
   * pre-populated.
   */
  lemma GlobalIdentifiersDistinct(spec: Spec)
    requires WellFormed(spec)
    requires forall i :: 0 <= i < |spec.globalParameters| ==> IsLongName(spec.globalParameters[i].longName)
    ensures InitResults(Identifiers(Details(spec.globalParameters))).Success?
  {
    var gs := spec.globalParameters;
    var all := AllParameters(spec);
    IdentifiersOfDetails(gs);
    var ids := Identifiers(Details(gs));
    forall i, j | 0 <= i < j < |ids| ensures ids[i] != ids[j] {
      assert all[i] == gs[i] && all[j] == gs[j];
      if ids[i] == ids[j] {
        IdentifierInjective(gs[i].longName, gs[j].longName);
      }
    }
  }

  /**
   * An action parameter is in the name tables but has no result entry, so
   * naming it on the command line makes the parse fail on the missing entry.
   */
  lemma ActionParameterThrows(spec: Spec, k: nat)
    requires Compile(spec).Success?
    requires k < |spec.actionParameters|
    requires forall i :: 0 <= i < |AllParameters(spec)| ==> IsLongName(AllParameters(spec)[i].longName)
    ensures var c := Compile(spec).value;
      var p := spec.actionParameters[k];
      Parse(c.tables, c.globalParameters, [p.longName]) == InternalFailure(MissingResultEntry(ToIdentifier(p.longName)))
    ensures var c := Compile(spec).value;
      var p := spec.actionParameters[k];
      ToIdentifier(p.longName) !in ObjectPrototypeMembers && FreeOfPrototypeMembers(Identifiers(c.globalParameters)) ==>
        ParseAsWritten(c.tables, c.globalParameters, [p.longName]) == InternalFailure(MissingResultEntry(ToIdentifier(p.longName)))
  {
    CompileMeaning(spec);
    var c := Compile(spec).value;
    var all := AllParameters(spec);
    var p := spec.actionParameters[k];
    assert all[|spec.globalParameters| + k] == p;
    assert forall i :: 0 <= i < |spec.globalParameters| ==> all[i] == spec.globalParameters[i];
    GlobalIdentifiersDistinct(spec);
    ActionIdentifierIsNotGlobal(spec.globalParameters, spec.actionParameters, k);
    assert c.tables.byLong[p.longName] == Detail(p);
    UnpopulatedParameterThrows(c.tables, c.globalParameters, p.longName);
  }

  /**
   * An action parameter named anywhere on the command line, by its long name or
   * by a well-formed short name, makes the parse throw once the arguments before
   * it have parsed without a message.
   */
  lemma ActionParameterThrowsAnywhere(spec: Spec, k: nat, a: seq<string>, name: string, b: seq<string>)
    requires Compile(spec).Success?
    requires k < |spec.actionParameters|
    requires forall i :: 0 <= i < |AllParameters(spec)| ==> IsLongName(AllParameters(spec)[i].longName)
    requires var p := spec.actionParameters[k];
      name == p.longName || (HasShortName(p) && name == p.shortName.value && IsShortName(name))
    requires var c := Compile(spec).value;
      Parse(c.tables, c.globalParameters, a).Parsed? && Parse(c.tables, c.globalParameters, a).result.errorMessage.None?
    ensures var c := Compile(spec).value;
      var p := spec.actionParameters[k];
      Parse(c.tables, c.globalParameters, a + ([name] + b)) == InternalFailure(MissingResultEntry(ToIdentifier(p.longName)))
  {
    CompileMeaning(spec);
    var c := Compile(spec).value;
    var all := AllParameters(spec);
    var p := spec.actionParameters[k];
    var args := a + ([name] + b);
    assert all[|spec.globalParameters| + k] == p;
    ActionIdentifierIsNotGlobal(spec.globalParameters, spec.actionParameters, k);
    assert args[|a|] == name;
    if name == p.longName {
      assert c.tables.byLong[p.longName] == Detail(p);
    } else {
      assert c.tables.byShort[name] == Detail(p);
    }
    assert ParameterAt(c.tables, args, |a|) == Detail(p);
    UnpopulatedNameThrowsInParse(c.tables, c.globalParameters, a, name, b);
  }

  /** With distinct, well-formed long names, no global parameter shares an action parameter's identifier. */
  lemma ActionIdentifierIsNotGlobal(gs: seq<Param>, acts: seq<Param>, k: nat)
    requires k < |acts|
    requires DistinctLongNames(gs + acts)
    requires forall i :: 0 <= i < |gs + acts| ==> IsLongName((gs + acts)[i].longName)
    ensures ToIdentifier(acts[k].longName) !in Identifiers(Details(gs))
  {
    var all, n, p := gs + acts, |gs|, acts[k];
    assert all[n + k] == p;
    IdentifiersOfDetails(gs);
    var ids := Identifiers(Details(gs));
    forall i | 0 <= i < n ensures ids[i] != ToIdentifier(p.longName) {
      assert all[i] == gs[i];
      assert all[i].longName != all[n + k].longName;
      if ids[i] == ToIdentifier(p.longName) {
        IdentifierInjective(gs[i].longName, p.longName);
      }
    }
  }

  /**
   * The same for a whole parse: after a prefix that parses without a message, a
   * recognised name whose identifier is not a global one makes the parse throw,
   * whatever arguments follow it.
   */
  lemma UnpopulatedNameThrowsInParse(
    tables: Tables, globals: seq<ParamDetail>, a: seq<string>, name: string, b: seq<string>)
    requires Parse(tables, globals, a).Parsed? && Parse(tables, globals, a).result.errorMessage.None?
    requires IsParameterName(tables, a + ([name] + b), |a|)
    requires ParameterAt(tables, a + ([name] + b), |a|).identifier !in Identifiers(globals)
    ensures Parse(tables, globals, a + ([name] + b)) ==
      InternalFailure(MissingResultEntry(ParameterAt(tables, a + ([name] + b), |a|).identifier))
  {
    var entries := InitResults(Identifiers(globals)).value;
    RunShape(tables, a, 0, entries);
    UnpopulatedNameThrows(tables, a, name, b, 0, entries);
  }

  /** A registered long name whose identifier was not pre-populated makes the parse throw. */
  lemma UnpopulatedParameterThrows(tables: Tables, globals: seq<ParamDetail>, name: string)
    requires InitResults(Identifiers(globals)).Success?
    requires IsLongName(name) && name in tables.byLong
    requires tables.byLong[name].identifier !in Identifiers(globals)
    ensures Parse(tables, globals, [name]) == InternalFailure(MissingResultEntry(tables.byLong[name].identifier))
    ensures tables.byLong[name].identifier !in ObjectPrototypeMembers && FreeOfPrototypeMembers(Identifiers(globals)) ==>
      ParseAsWritten(tables, globals, [name]) == InternalFailure(MissingResultEntry(tables.byLong[name].identifier))
  {
    assert MakeCurrentToken([name], 0).kind == LongParameter;
    if tables.byLong[name].identifier !in ObjectPrototypeMembers && FreeOfPrototypeMembers(Identifiers(globals)) {
      var entries := InitResults(Identifiers(globals)).value;
      InitResultsAsWrittenMeaning(Identifiers(globals));
      assert StepAsWritten(tables, [name], 0, entries) == Step(tables, [name], 0, entries);
    }
  }

  /** Every successful parse holds exactly one entry per global identifier. */
  lemma ParseKeepsGlobalEntries(tables: Tables, globals: seq<ParamDetail>, args: seq<string>)
    ensures Parse(tables, globals, args).Parsed? ==>
      Parse(tables, globals, args).result.parameterResultsByIdentifier.Keys == set id | id in Identifiers(globals)
  {
    if InitResults(Identifiers(globals)).Success? {
      RunShape(tables, args, 0, InitResults(Identifiers(globals)).value);
    }
  }

  // ---------------------------------------------------------------------------
  // Identifiers that name members of Object.prototype
  // ---------------------------------------------------------------------------

  /**
   * Global parameters with distinct identifiers, one of which every plain object
   * inherits: the pre-population as written refuses them on every parse, while
   * the intended one accepts them and an empty command line parses.
   */
  lemma PrototypeMemberBreaksParse(tables: Tables, globals: seq<ParamDetail>, args: seq<string>)
    requires InitResults(Identifiers(globals)).Success?
    requires !FreeOfPrototypeMembers(Identifiers(globals))
    ensures ParseAsWritten(tables, globals, args).InternalFailure?
    ensures ParseAsWritten(tables, globals, args).error.DuplicateIdentifier?
    ensures ParseSemantics.Parse(tables, globals, []).Parsed?
  {
    var entries := InitResults(Identifiers(globals)).value;
    assert Step(tables, [], 0, entries) == Halt(Final(ParsedResult(entries, None), None));
    assert Run(tables, [], 0, entries).Success?;
  }

  /** The same for a well-formed spec whose global long name converts to an inherited member. */
  lemma PrototypeMemberBreaksEveryParse(spec: Spec, k: nat, args: seq<string>)
    requires WellFormed(spec)
    requires forall i :: 0 <= i < |spec.globalParameters| ==> IsLongName(spec.globalParameters[i].longName)
    requires k < |spec.globalParameters| && ToIdentifier(spec.globalParameters[k].longName) in ObjectPrototypeMembers
    ensures Compile(spec).Success?
    ensures var c := Compile(spec).value;
      && ParseAsWritten(c.tables, c.globalParameters, args).InternalFailure?
      && ParseAsWritten(c.tables, c.globalParameters, args).error.DuplicateIdentifier?
      && ParseSemantics.Parse(c.tables, c.globalParameters, []).Parsed?
  {
    CompileMeaning(spec);
    GlobalIdentifiersDistinct(spec);
    var gs := spec.globalParameters;
    IdentifiersOfDetails(gs);
    var globals := Details(gs);
    assert !FreeOfPrototypeMembers(Identifiers(globals)) by {
      assert Identifiers(globals)[k] in ObjectPrototypeMembers;
    }
    PrototypeMemberBreaksParse(Compile(spec).value.tables, globals, args);
  }

  // ---------------------------------------------------------------------------
  // Parameter lookups that find an inherited member
  // ---------------------------------------------------------------------------

  /** No parameter in the tables is found only by inheritance, given the result map's keys. */
  ghost predicate NoInheritedLookups(tables: Tables, keys: set<string>) {
    && (forall n :: n in tables.byLong ==> !InheritedLookup(keys, tables.byLong[n].identifier))
    && (forall n :: n in tables.byShort ==> !InheritedLookup(keys, tables.byShort[n].identifier))
  }

  lemma StepAsWrittenAgrees(tables: Tables, args: seq<string>, i: nat, entries: map<string, ParsedParameterResult>)
    requires i <= |args| && NoInheritedLookups(tables, entries.Keys)
    ensures StepAsWritten(tables, args, i, entries) == Step(tables, args, i, entries)
  {
  }

  /** Without inherited lookups, the loop as written runs exactly as the intended one. */
  lemma {:induction false} RunAsWrittenAgrees(
    tables: Tables, args: seq<string>, i: nat, entries: map<string, ParsedParameterResult>)
    requires i <= |args| && NoInheritedLookups(tables, entries.Keys)
    ensures RunAsWritten(tables, args, i, entries) == Run(tables, args, i, entries)
    decreases |args| - i
  {
    StepAsWrittenAgrees(tables, args, i, entries);
    match Step(tables, args, i, entries)
    case Continue(next, entries') => RunAsWrittenAgrees(tables, args, next, entries');
    case Halt(_) =>
    case Fail(_) =>
  }

  /**
   * When no global identifier and no identifier in the tables is an inherited
   * member, the parse as written is the intended parse.
   */
  lemma ParseAsWrittenAgrees(tables: Tables, globals: seq<ParamDetail>, args: seq<string>)
    requires FreeOfPrototypeMembers(Identifiers(globals))
    requires forall n :: n in tables.byLong ==> tables.byLong[n].identifier !in ObjectPrototypeMembers
    requires forall n :: n in tables.byShort ==> tables.byShort[n].identifier !in ObjectPrototypeMembers
    ensures ParseAsWritten(tables, globals, args) == Parse(tables, globals, args)
  {
    var ids := Identifiers(globals);
    InitResultsAsWrittenMeaning(ids);
    if InitResults(ids).Success? {
      RunAsWrittenAgrees(tables, args, 0, InitResults(ids).value);
    }
  }

  /**
   * A registered long name whose identifier is an inherited member and was not
   * pre-populated: the source's lookup finds the inherited object, so the parse
   * goes on and returns the pre-populated map untouched, with no message for a
   * flag and the missing-argument message for a string parameter; the intended
   * lookup fails on the missing entry.
   */
  lemma InheritedParameterParsesOn(tables: Tables, globals: seq<ParamDetail>, name: string)
    requires InitResults(Identifiers(globals)).Success? && FreeOfPrototypeMembers(Identifiers(globals))
    requires IsLongName(name) && name in tables.byLong
    requires tables.byLong[name].identifier in ObjectPrototypeMembers
    ensures var entries := InitResults(Identifiers(globals)).value;
      ParseAsWritten(tables, globals, [name]) == Parsed(ParsedResult(entries,
        match tables.byLong[name].param.kind
        case Flag => None
        case Str(argumentName) => Some(MissingArgumentMessage(argumentName, name))))
    ensures Parse(tables, globals, [name]) == InternalFailure(MissingResultEntry(tables.byLong[name].identifier))
  {
    var ids := Identifiers(globals);
    var entries := InitResults(ids).value;
    var d := tables.byLong[name];
    assert d.identifier !in ids;
    InitResultsAsWrittenMeaning(ids);
    UnpopulatedParameterThrows(tables, globals, name);
    var token := MakeCurrentToken([name], 0);
    assert token.kind == LongParameter && token.value == name;
    assert MakeCurrentToken([name], 1).kind == EndOfStream;
    assert StepAsWritten(tables, [name], 0, entries) == InheritedParameterStep([name], 1, entries, d, token);
    assert InitResultsAsWritten(ids) == Success(entries);
    match d.param.kind
    case Flag =>
      assert StepAsWritten(tables, [name], 1, entries) == Halt(Final(ParsedResult(entries, None), None));
      assert RunAsWritten(tables, [name], 0, entries) == RunAsWritten(tables, [name], 1, entries);
    case Str(argumentName) =>
      assert RunAsWritten(tables, [name], 0, entries).value.result ==
        ParsedResult(entries, Some(MissingArgumentMessage(argumentName, name)));
  }

  /**
   * For a compiled spec with valid long names and no inherited global identifier,
   * naming an action-scoped parameter whose identifier is an inherited member
   * does not throw as written: the parse goes on with the pre-populated map.
   */
  lemma ActionPrototypeMemberParsesOn(spec: Spec, k: nat)
    requires Compile(spec).Success?
    requires k < |spec.actionParameters|
    requires forall i :: 0 <= i < |AllParameters(spec)| ==> IsLongName(AllParameters(spec)[i].longName)
    requires FreeOfPrototypeMembers(Identifiers(Details(spec.globalParameters)))
    requires ToIdentifier(spec.actionParameters[k].longName) in ObjectPrototypeMembers
    ensures var c := Compile(spec).value;
      var p := spec.actionParameters[k];
      && InitResults(Identifiers(c.globalParameters)).Success?
      && ParseAsWritten(c.tables, c.globalParameters, [p.longName]) == Parsed(ParsedResult(
        InitResults(Identifiers(c.globalParameters)).value,
        match p.kind
        case Flag => None
        case Str(argumentName) => Some(MissingArgumentMessage(argumentName, p.longName))))
  {
    ActionParameterRegistered(spec, k);
    var c := Compile(spec).value;
    InheritedParameterParsesOn(c.tables, c.globalParameters, spec.actionParameters[k].longName);
  }

  /** What a compiled spec with valid long names gives about an action-scoped parameter. */
  lemma ActionParameterRegistered(spec: Spec, k: nat)
    requires Compile(spec).Success?
    requires k < |spec.actionParameters|
    requires forall i :: 0 <= i < |AllParameters(spec)| ==> IsLongName(AllParameters(spec)[i].longName)
    ensures var c := Compile(spec).value;
      var p := spec.actionParameters[k];
      && IsLongName(p.longName)
      && p.longName in c.tables.byLong && c.tables.byLong[p.longName] == Detail(p)
      && c.globalParameters == Details(spec.globalParameters)
      && InitResults(Identifiers(c.globalParameters)).Success?
  {
    CompileMeaning(spec);
    var c := Compile(spec).value;
    var all := AllParameters(spec);
    var p := spec.actionParameters[k];
    assert all[|spec.globalParameters| + k] == p;
    assert forall i :: 0 <= i < |spec.globalParameters| ==> all[i] == spec.globalParameters[i];
    GlobalIdentifiersDistinct(spec);
  }

  /**
   * The smallest spec that shows it: one action-scoped flag "--constructor". As
   * written, naming it parses to an empty result map; the intended lookup fails
   * on its missing entry.
   */
  lemma ActionConstructorFlagParsesOn(s: string)
    requires s == "--constructor"
    ensures var spec := Spec([], [Param(Flag, s, None)], []);
      && WellFormed(spec)
      && Compile(spec).Success?
      && ParseAsWritten(Compile(spec).value.tables, Compile(spec).value.globalParameters, [s])
        == Parsed(ParsedResult(map[], None))
      && ParseSemantics.Parse(Compile(spec).value.tables, Compile(spec).value.globalParameters, [s])
        == InternalFailure(MissingResultEntry("constructor"))
  {
    var spec := Spec([], [Param(Flag, s, None)], []);
    ConstructorIsPrototypeMember(s);
    assert AllParameters(spec) == [Param(Flag, s, None)];
    assert WellFormed(spec);
    CompileMeaning(spec);
    assert Identifiers(Details(spec.globalParameters)) == [];
    ActionPrototypeMemberParsesOn(spec, 0);
    ActionParameterThrows(spec, 0);
  }

  /** A non-empty run of lower-case letters and digits is a one-run separated name. */
  lemma {:induction false} LowerRunIsSeparated(t: string, seps: set<char>)
    requires |t| >= 1 && AllLowerAlnum(t)
    ensures SeparatedRuns(t, seps)
    decreases |t|
  {
    if |t| > 1 {
      LowerRunIsSeparated(t[1..], seps);
    }
  }

  lemma {:induction false} LowerRunFromChars(t: string)
    requires forall i :: 0 <= i < |t| ==> IsLowerAlnum(t[i])
    ensures AllLowerAlnum(t)
    decreases |t|
  {
    if t != [] {
      assert forall i :: 0 <= i < |t| - 1 ==> t[1..][i] == t[i + 1];
      LowerRunFromChars(t[1..]);
    }
  }

  lemma {:induction false} LowerRunHasNoDash(t: string)
    requires AllLowerAlnum(t)
    ensures '-' !in t
    decreases |t|
  {
    if t != [] {
      LowerRunHasNoDash(t[1..]);
      assert t == [t[0]] + t[1..];
    }
  }

  /** A long name of one lower-case word that starts with a letter has that word as its identifier. */
  lemma OneWordLongName(word: string)
    requires |word| >= 1 && AllLowerAlnum(word) && IsAsciiLetter(word[0])
    ensures IsLongName("--" + word)
    ensures ToIdentifier("--" + word) == word
  {
    var s := "--" + word;
    assert s[2..] == word;
    LowerRunIsSeparated(word, {'-'});
    LowerRunHasNoDash(word);
    OneWordIdentifier(s, word);
  }

  lemma ConstructorIsLowerRun(word: string)
    requires word == "constructor"
    ensures |word| >= 1 && AllLowerAlnum(word) && IsAsciiLetter(word[0])
  {
    assert forall i :: 0 <= i < |word| ==> IsLowerAlnum(word[i]);
    LowerRunFromChars(word);
  }

  lemma ConstructorWord(word: string)
    requires word == "constructor"
    ensures IsLongName("--" + word)
    ensures ToIdentifier("--" + word) == word && word in ObjectPrototypeMembers
  {
    ConstructorIsLowerRun(word);
    OneWordLongName(word);
  }

  /**
   * "--constructor" is a valid long name whose identifier is "constructor". As
   * with the converter's examples, the literal is the parameter `s` pinned by
   * the precondition, and the proof goes through `OneWordLongName`.
   */
  lemma ConstructorIsPrototypeMember(s: string)
    requires s == "--constructor"
    ensures IsLongName(s)
    ensures ToIdentifier(s) == "constructor" && ToIdentifier(s) in ObjectPrototypeMembers
  {
    var word := s[2..];
    assert word == "constructor";
    assert s == "--" + word;
    ConstructorWord(word);
  }

  /** The smallest spec that shows it: one global flag "--constructor" and no arguments. */
  lemma ConstructorFlagBreaksParse(s: string)
    requires s == "--constructor"
    ensures var spec := Spec([Param(Flag, s, None)], [], []);
      && WellFormed(spec)
      && Compile(spec).Success?
      && ParseAsWritten(Compile(spec).value.tables, Compile(spec).value.globalParameters, []).InternalFailure?
      && ParseSemantics.Parse(Compile(spec).value.tables, Compile(spec).value.globalParameters, []).Parsed?
  {
    var spec := Spec([Param(Flag, s, None)], [], []);
    ConstructorIsPrototypeMember(s);
    assert WellFormed(spec);
    PrototypeMemberBreaksEveryParse(spec, 0, []);
  }
}
