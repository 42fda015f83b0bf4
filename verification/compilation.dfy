/**
 * What constructing a parser from a spec computes: the long-name and
 * short-name lookup tables shared by global and action parameters, the
 * per-parameter identifiers, and the action table; or the first error met.
 * Each fold is written over the last element so that it follows the
 * construction loops prefix by prefix.
 */
module Compilation {
  import opened Wrappers
  import opened TokenSyntax
  import opened CliSpec

  /** A parameter together with the identifier that keys its parsed result. */
  datatype ParamDetail = ParamDetail(param: Param, identifier: string)

  datatype ActionDetail = ActionDetail(action: Action, associatedParameters: set<ParamDetail>)

  /** The four ways construction can be refused. */
  datatype SpecError =
    | DuplicateLongName(longName: string)
    | DuplicateShortName(shortName: string)
    | DuplicateActionName(actionName: string)
    | UndefinedAssociatedParameter(actionName: string, longName: string)

  datatype Tables = Tables(byLong: map<string, ParamDetail>, byShort: map<string, ParamDetail>)

  datatype Compiled = Compiled(
    tables: Tables,
    globalParameters: seq<ParamDetail>,
    actionParameters: seq<ParamDetail>,
    actionsByName: map<string, ActionDetail>)

  function Detail(p: Param): ParamDetail {
    ParamDetail(p, ToIdentifier(p.longName))
  }

  function Details(ps: seq<Param>): seq<ParamDetail> {
    seq(|ps|, i requires 0 <= i < |ps| => Detail(ps[i]))
  }

  // ---------------------------------------------------------------------------
  // Parameters
  // ---------------------------------------------------------------------------

  /** Registering one parameter: refused when its long name, or its short name if it has one, is taken. */
  function AddParameter(t: Tables, p: Param): (r: Result<Tables, SpecError>)
    ensures r.Failure? <==> p.longName in t.byLong || (HasShortName(p) && p.shortName.value in t.byShort)
    ensures r.Failure? && p.longName in t.byLong ==> r.error == DuplicateLongName(p.longName)
    ensures r.Success? ==> r.value.byLong.Keys == t.byLong.Keys + {p.longName}
    ensures r.Success? ==> r.value.byShort.Keys == t.byShort.Keys + (if HasShortName(p) then {p.shortName.value} else {})
  {
    if p.longName in t.byLong then Failure(DuplicateLongName(p.longName))
    else if HasShortName(p) && p.shortName.value in t.byShort then Failure(DuplicateShortName(p.shortName.value))
    else
      Success(Tables(
        t.byLong[p.longName := Detail(p)],
        if HasShortName(p) then t.byShort[p.shortName.value := Detail(p)] else t.byShort))
  }

  /** Registering the parameters in order, stopping at the first refusal. */
  function AddParameters(ps: seq<Param>): Result<Tables, SpecError>
    decreases |ps|
  {
    if ps == [] then Success(Tables(map[], map[]))
    else
      match AddParameters(ps[..|ps| - 1])
      case Failure(e) => Failure(e)
      case Success(t) => AddParameter(t, ps[|ps| - 1])
  }

  /** Registering one more parameter after an accepted prefix. */
  lemma AddParametersSnoc(ps: seq<Param>, k: nat)
    requires k < |ps| && AddParameters(ps[..k]).Success?
    ensures AddParameters(ps[..k + 1]) == AddParameter(AddParameters(ps[..k]).value, ps[k])
  {
    assert ps[..k + 1][..k] == ps[..k];
  }

  /** Registering the next parameter of `ps` after `before` and an accepted prefix of `ps`. */
  lemma AddParametersAppend(before: seq<Param>, ps: seq<Param>, k: nat)
    requires k < |ps| && AddParameters(before + ps[..k]).Success?
    ensures AddParameters(before + ps[..k + 1]) == AddParameter(AddParameters(before + ps[..k]).value, ps[k])
  {
    var longer := before + ps[..k + 1];
    assert longer == (before + ps[..k]) + [ps[k]];
    AddParametersLast(before + ps[..k], ps[k]);
  }

  lemma AddParametersLast(ps: seq<Param>, p: Param)
    requires AddParameters(ps).Success?
    ensures AddParameters(ps + [p]) == AddParameter(AddParameters(ps).value, p)
  {
    assert (ps + [p])[..|ps|] == ps;
  }

  /** A refused prefix of `ps` after `before` refuses `before + ps` with the same error. */
  lemma AddParametersAppendRefusal(before: seq<Param>, ps: seq<Param>, k: nat)
    requires k <= |ps| && AddParameters(before + ps[..k]).Failure?
    ensures AddParameters(before + ps) == AddParameters(before + ps[..k])
  {
    var all := before + ps;
    assert all[..|before| + k] == before + ps[..k];
    AddParametersStopsAtFirstRefusal(all, |before| + k);
  }

  lemma DetailsSnoc(ps: seq<Param>, k: nat)
    requires k < |ps|
    ensures Details(ps[..k + 1]) == Details(ps[..k]) + [Detail(ps[k])]
  {
  }

  /** Once a prefix of the parameters is refused, so is the whole sequence, with the same error. */
  lemma {:induction false} AddParametersStopsAtFirstRefusal(ps: seq<Param>, k: nat)
    requires k <= |ps| && AddParameters(ps[..k]).Failure?
    ensures AddParameters(ps) == AddParameters(ps[..k])
    decreases |ps| - k
  {
    if k < |ps| {
      assert ps[..k + 1][..k] == ps[..k];
      AddParametersStopsAtFirstRefusal(ps, k + 1);
    } else {
      assert ps[..k] == ps;
    }
  }

  ghost predicate DistinctLongNames(ps: seq<Param>) {
    forall i, j :: 0 <= i < j < |ps| ==> ps[i].longName != ps[j].longName
  }

  ghost predicate DistinctShortNames(ps: seq<Param>) {
    forall i, j :: 0 <= i < j < |ps| && HasShortName(ps[i]) && HasShortName(ps[j]) ==>
      ps[i].shortName.value != ps[j].shortName.value
  }

  /** The long-name table holds exactly the parameters of `ps`, keyed by long name. */
  ghost predicate RegistersLong(byLong: map<string, ParamDetail>, ps: seq<Param>) {
    && (forall i :: 0 <= i < |ps| ==> ps[i].longName in byLong && byLong[ps[i].longName] == Detail(ps[i]))
    && (forall n :: n in byLong ==> exists i :: 0 <= i < |ps| && ps[i].longName == n)
  }

  /** The short-name table holds exactly the parameters of `ps` that have a short name, keyed by it. */
  ghost predicate RegistersShort(byShort: map<string, ParamDetail>, ps: seq<Param>) {
    && (forall i :: 0 <= i < |ps| && HasShortName(ps[i]) ==>
          ps[i].shortName.value in byShort && byShort[ps[i].shortName.value] == Detail(ps[i]))
    && (forall n :: n in byShort ==> exists i :: 0 <= i < |ps| && HasShortName(ps[i]) && ps[i].shortName.value == n)
  }

  ghost predicate Registers(t: Tables, ps: seq<Param>) {
    RegistersLong(t.byLong, ps) && RegistersShort(t.byShort, ps)
  }

  lemma DistinctLongNamesSnoc(q: seq<Param>, p: Param)
    ensures DistinctLongNames(q + [p]) <==>
      DistinctLongNames(q) && forall i :: 0 <= i < |q| ==> q[i].longName != p.longName
  {
    var ps := q + [p];
    assert forall i :: 0 <= i < |q| ==> ps[i] == q[i];
    assert ps[|q|] == p;
  }

  lemma DistinctShortNamesSnoc(q: seq<Param>, p: Param)
    ensures DistinctShortNames(q + [p]) <==>
      && DistinctShortNames(q)
      && (HasShortName(p) ==>
            forall i :: 0 <= i < |q| && HasShortName(q[i]) ==> q[i].shortName.value != p.shortName.value)
  {
    var ps := q + [p];
    assert forall i :: 0 <= i < |q| ==> ps[i] == q[i];
    assert ps[|q|] == p;
  }

  lemma RegistersLongSnoc(byLong: map<string, ParamDetail>, q: seq<Param>, p: Param)
    requires RegistersLong(byLong, q) && p.longName !in byLong
    ensures RegistersLong(byLong[p.longName := Detail(p)], q + [p])
  {
    var m' := byLong[p.longName := Detail(p)];
    var ps := q + [p];
    var n := |q|;
    assert forall i :: 0 <= i < n ==> ps[i] == q[i];
    assert ps[n] == p;
    forall i | 0 <= i < |ps| ensures ps[i].longName in m' && m'[ps[i].longName] == Detail(ps[i]) {
      if i < n {
        assert q[i].longName in byLong;
      }
    }
    forall m | m in m' ensures exists i :: 0 <= i < |ps| && ps[i].longName == m {
      if m == p.longName {
        assert ps[n].longName == m;
      } else {
        var i :| 0 <= i < n && q[i].longName == m;
        assert ps[i].longName == m;
      }
    }
  }

  lemma RegistersShortSnoc(byShort: map<string, ParamDetail>, q: seq<Param>, p: Param)
    requires RegistersShort(byShort, q) && (HasShortName(p) ==> p.shortName.value !in byShort)
    ensures RegistersShort(if HasShortName(p) then byShort[p.shortName.value := Detail(p)] else byShort, q + [p])
  {
    var m' := if HasShortName(p) then byShort[p.shortName.value := Detail(p)] else byShort;
    var ps := q + [p];
    var n := |q|;
    assert forall i :: 0 <= i < n ==> ps[i] == q[i];
    assert ps[n] == p;
    forall i | 0 <= i < |ps| && HasShortName(ps[i])
      ensures ps[i].shortName.value in m' && m'[ps[i].shortName.value] == Detail(ps[i])
    {
      if i < n {
        assert q[i].shortName.value in byShort;
      }
    }
    forall m | m in m' ensures exists i :: 0 <= i < |ps| && HasShortName(ps[i]) && ps[i].shortName.value == m {
      if HasShortName(p) && m == p.shortName.value {
        assert HasShortName(ps[n]) && ps[n].shortName.value == m;
      } else {
        var i :| 0 <= i < n && HasShortName(q[i]) && q[i].shortName.value == m;
        assert HasShortName(ps[i]) && ps[i].shortName.value == m;
      }
    }
  }

  /**
   * Registration succeeds exactly when long names are pairwise distinct and the
   * present short names are pairwise distinct; the tables then reach every parameter.
   */
  lemma {:induction false} AddParametersMeaning(ps: seq<Param>)
    ensures AddParameters(ps).Success? <==> DistinctLongNames(ps) && DistinctShortNames(ps)
    ensures AddParameters(ps).Success? ==> Registers(AddParameters(ps).value, ps)
    decreases |ps|
  {
    if ps != [] {
      var n := |ps| - 1;
      var q, p := ps[..n], ps[n];
      assert ps == q + [p];
      AddParametersMeaning(q);
      DistinctLongNamesSnoc(q, p);
      DistinctShortNamesSnoc(q, p);
      if AddParameters(q).Success? {
        var t := AddParameters(q).value;
        if p.longName in t.byLong {
          var i :| 0 <= i < n && q[i].longName == p.longName;
        } else if HasShortName(p) && p.shortName.value in t.byShort {
          var i :| 0 <= i < n && HasShortName(q[i]) && q[i].shortName.value == p.shortName.value;
        } else {
          RegistersLongSnoc(t.byLong, q, p);
          RegistersShortSnoc(t.byShort, q, p);
          forall i | 0 <= i < |q| ensures q[i].longName != p.longName {
            assert q[i].longName in t.byLong;
          }
          forall i | 0 <= i < |q| && HasShortName(q[i]) && HasShortName(p)
            ensures q[i].shortName.value != p.shortName.value
          {
            assert q[i].shortName.value in t.byShort;
          }
        }
      }
    }
  }

  // ---------------------------------------------------------------------------
  // Actions
  // ---------------------------------------------------------------------------

  /** The parameters an action names, all looked up in the shared long-name table. */
  function ResolveAssociated(byLong: map<string, ParamDetail>, actionName: string, names: seq<string>)
    : (r: Result<set<ParamDetail>, SpecError>)
    ensures r.Success? <==> forall k :: 0 <= k < |names| ==> names[k] in byLong
    ensures r.Success? ==> r.value == set n | n in names && n in byLong :: byLong[n]
    ensures r.Failure? ==>
      && r.error.UndefinedAssociatedParameter?
      && r.error.actionName == actionName
      && r.error.longName in names
      && r.error.longName !in byLong
    decreases |names|
  {
    if names == [] then Success({})
    else
      var n := names[|names| - 1];
      var front := names[..|names| - 1];
      assert forall k :: 0 <= k < |front| ==> front[k] == names[k];
      assert names == front + [n];
      match ResolveAssociated(byLong, actionName, front)
      case Failure(e) => Failure(e)
      case Success(s) =>
        if n !in byLong then Failure(UndefinedAssociatedParameter(actionName, n))
        else Success(s + {byLong[n]})
  }

  /** Registering one action: refused on a repeated name or an undefined associated parameter. */
  function AddAction(byLong: map<string, ParamDetail>, actions: map<string, ActionDetail>, a: Action)
    : (r: Result<map<string, ActionDetail>, SpecError>)
    ensures r.Failure? <==> a.actionName in actions || ResolveAssociated(byLong, a.actionName, a.associatedParameterLongNames).Failure?
    ensures r.Success? ==> r.value.Keys == actions.Keys + {a.actionName}
  {
    if a.actionName in actions then Failure(DuplicateActionName(a.actionName))
    else
      match ResolveAssociated(byLong, a.actionName, a.associatedParameterLongNames)
      case Failure(e) => Failure(e)
      case Success(s) => Success(actions[a.actionName := ActionDetail(a, s)])
  }

  function AddActions(byLong: map<string, ParamDetail>, acts: seq<Action>): Result<map<string, ActionDetail>, SpecError>
    decreases |acts|
  {
    if acts == [] then Success(map[])
    else
      match AddActions(byLong, acts[..|acts| - 1])
      case Failure(e) => Failure(e)
      case Success(m) => AddAction(byLong, m, acts[|acts| - 1])
  }

  /** Looking up one more associated name after a resolved prefix. */
  lemma ResolveSnoc(byLong: map<string, ParamDetail>, actionName: string, names: seq<string>, k: nat)
    requires k < |names| && ResolveAssociated(byLong, actionName, names[..k]).Success?
    ensures ResolveAssociated(byLong, actionName, names[..k + 1]) ==
      if names[k] !in byLong then Failure(UndefinedAssociatedParameter(actionName, names[k]))
      else Success(ResolveAssociated(byLong, actionName, names[..k]).value + {byLong[names[k]]})
  {
    assert names[..k + 1][..k] == names[..k];
  }

  /** Registering one more action after an accepted prefix. */
  lemma AddActionsSnoc(byLong: map<string, ParamDetail>, acts: seq<Action>, k: nat)
    requires k < |acts| && AddActions(byLong, acts[..k]).Success?
    ensures AddActions(byLong, acts[..k + 1]) == AddAction(byLong, AddActions(byLong, acts[..k]).value, acts[k])
  {
    assert acts[..k + 1][..k] == acts[..k];
  }

  /** Once an associated name of a prefix is undefined, the whole list is refused with the same error. */
  lemma {:induction false} ResolveStopsAtFirstUndefined(
    byLong: map<string, ParamDetail>, actionName: string, names: seq<string>, k: nat)
    requires k <= |names| && ResolveAssociated(byLong, actionName, names[..k]).Failure?
    ensures ResolveAssociated(byLong, actionName, names) == ResolveAssociated(byLong, actionName, names[..k])
    decreases |names| - k
  {
    if k < |names| {
      assert names[..k + 1][..k] == names[..k];
      ResolveStopsAtFirstUndefined(byLong, actionName, names, k + 1);
    } else {
      assert names[..k] == names;
    }
  }

  /** Once a prefix of the actions is refused, so is the whole sequence, with the same error. */
  lemma {:induction false} AddActionsStopsAtFirstRefusal(byLong: map<string, ParamDetail>, acts: seq<Action>, k: nat)
    requires k <= |acts| && AddActions(byLong, acts[..k]).Failure?
    ensures AddActions(byLong, acts) == AddActions(byLong, acts[..k])
    decreases |acts| - k
  {
    if k < |acts| {
      assert acts[..k + 1][..k] == acts[..k];
      AddActionsStopsAtFirstRefusal(byLong, acts, k + 1);
    } else {
      assert acts[..k] == acts;
    }
  }

  ghost predicate DistinctActionNames(acts: seq<Action>) {
    forall i, j :: 0 <= i < j < |acts| ==> acts[i].actionName != acts[j].actionName
  }

  ghost predicate AssociationsDefined(byLong: map<string, ParamDetail>, acts: seq<Action>) {
    forall i, k :: 0 <= i < |acts| && 0 <= k < |acts[i].associatedParameterLongNames| ==>
      acts[i].associatedParameterLongNames[k] in byLong
  }

  /** The detail an action compiles to, given that all its associated names are defined. */
  ghost function ActionDetailOf(byLong: map<string, ParamDetail>, a: Action): ActionDetail {
    ActionDetail(a, set n | n in a.associatedParameterLongNames && n in byLong :: byLong[n])
  }

  /** The action table holds exactly the actions of `acts`, keyed by name. */
  ghost predicate RegistersActions(m: map<string, ActionDetail>, byLong: map<string, ParamDetail>, acts: seq<Action>) {
    && (forall i :: 0 <= i < |acts| ==> acts[i].actionName in m && m[acts[i].actionName] == ActionDetailOf(byLong, acts[i]))
    && (forall n :: n in m ==> exists i :: 0 <= i < |acts| && acts[i].actionName == n)
  }

  lemma DistinctActionNamesSnoc(q: seq<Action>, a: Action)
    ensures DistinctActionNames(q + [a]) <==>
      DistinctActionNames(q) && forall i :: 0 <= i < |q| ==> q[i].actionName != a.actionName
  {
    var acts := q + [a];
    assert forall i :: 0 <= i < |q| ==> acts[i] == q[i];
    assert acts[|q|] == a;
  }

  lemma AssociationsDefinedSnoc(byLong: map<string, ParamDetail>, q: seq<Action>, a: Action)
    ensures AssociationsDefined(byLong, q + [a]) <==>
      && AssociationsDefined(byLong, q)
      && forall k :: 0 <= k < |a.associatedParameterLongNames| ==> a.associatedParameterLongNames[k] in byLong
  {
    var acts := q + [a];
    assert forall i :: 0 <= i < |q| ==> acts[i] == q[i];
    assert acts[|q|] == a;
  }

  /** Registering one more action extends what the action table reaches by exactly that action. */
  lemma RegistersActionsSnoc(m: map<string, ActionDetail>, byLong: map<string, ParamDetail>, q: seq<Action>, a: Action)
    requires RegistersActions(m, byLong, q) && AddAction(byLong, m, a).Success?
    ensures RegistersActions(AddAction(byLong, m, a).value, byLong, q + [a])
  {
    var m' := AddAction(byLong, m, a).value;
    var acts := q + [a];
    var n := |q|;
    assert forall i :: 0 <= i < n ==> acts[i] == q[i];
    assert acts[n] == a;
    forall i | 0 <= i < |acts|
      ensures acts[i].actionName in m' && m'[acts[i].actionName] == ActionDetailOf(byLong, acts[i])
    {
      if i < n {
        assert q[i].actionName in m;
      }
    }
    forall x | x in m' ensures exists i :: 0 <= i < |acts| && acts[i].actionName == x {
      if x == a.actionName {
        assert acts[n].actionName == x;
      } else {
        var i :| 0 <= i < n && q[i].actionName == x;
        assert acts[i].actionName == x;
      }
    }
  }

  /**
   * Actions are accepted exactly when their names are pairwise distinct and every
   * associated long name is in the table; the table then reaches every action.
   */
  lemma {:induction false} AddActionsMeaning(byLong: map<string, ParamDetail>, acts: seq<Action>)
    ensures AddActions(byLong, acts).Success? <==> DistinctActionNames(acts) && AssociationsDefined(byLong, acts)
    ensures AddActions(byLong, acts).Success? ==> RegistersActions(AddActions(byLong, acts).value, byLong, acts)
    decreases |acts|
  {
    if acts != [] {
      var n := |acts| - 1;
      var q, a := acts[..n], acts[n];
      assert acts == q + [a];
      AddActionsMeaning(byLong, q);
      DistinctActionNamesSnoc(q, a);
      AssociationsDefinedSnoc(byLong, q, a);
      if AddActions(byLong, q).Success? {
        var m := AddActions(byLong, q).value;
        if a.actionName in m {
          var i :| 0 <= i < n && q[i].actionName == a.actionName;
        } else if ResolveAssociated(byLong, a.actionName, a.associatedParameterLongNames).Success? {
          RegistersActionsSnoc(m, byLong, q, a);
          forall i | 0 <= i < |q| ensures q[i].actionName != a.actionName {
            assert q[i].actionName in m;
          }
        }
      }
    }
  }

  // ---------------------------------------------------------------------------
  // The whole construction
  // ---------------------------------------------------------------------------

  function AllParameters(spec: Spec): seq<Param> {
    spec.globalParameters + spec.actionParameters
  }

  /** Global parameters, then action parameters, then actions, stopping at the first refusal. */
  function Compile(spec: Spec): Result<Compiled, SpecError> {
    match AddParameters(AllParameters(spec))
    case Failure(e) => Failure(e)
    case Success(t) =>
      match AddActions(t.byLong, spec.actions)
      case Failure(e) => Failure(e)
      case Success(acts) =>
        Success(Compiled(t, Details(spec.globalParameters), Details(spec.actionParameters), acts))
  }

  /** A spec the parser accepts. */
  ghost predicate WellFormed(spec: Spec) {
    var all := AllParameters(spec);
    && DistinctLongNames(all)
    && DistinctShortNames(all)
    && DistinctActionNames(spec.actions)
    && forall i, k :: 0 <= i < |spec.actions| && 0 <= k < |spec.actions[i].associatedParameterLongNames| ==>
         exists j :: 0 <= j < |all| && all[j].longName == spec.actions[i].associatedParameterLongNames[k]
  }

  /**
   * Construction succeeds exactly on well-formed specs. It then reaches every
   * global and action parameter by long name and, if it has one, by short name,
   * with the identifier of its long name; and every action by its name, with
   * the details of the parameters it names.
   */
  lemma CompileMeaning(spec: Spec)
    ensures Compile(spec).Success? <==> WellFormed(spec)
    ensures Compile(spec).Success? ==>
      var c := Compile(spec).value;
      && Registers(c.tables, AllParameters(spec))
      && RegistersActions(c.actionsByName, c.tables.byLong, spec.actions)
      && c.globalParameters == Details(spec.globalParameters)
      && c.actionParameters == Details(spec.actionParameters)
  {
    var all := AllParameters(spec);
    AddParametersMeaning(all);
    if AddParameters(all).Success? {
      var t := AddParameters(all).value;
      AddActionsMeaning(t.byLong, spec.actions);
      var acts := spec.actions;
      if WellFormed(spec) {
        assert AssociationsDefined(t.byLong, acts) by {
          forall i, k | 0 <= i < |acts| && 0 <= k < |acts[i].associatedParameterLongNames|
            ensures acts[i].associatedParameterLongNames[k] in t.byLong
          {
            var j :| 0 <= j < |all| && all[j].longName == acts[i].associatedParameterLongNames[k];
          }
        }
      }
      if AssociationsDefined(t.byLong, acts) {
        forall i, k | 0 <= i < |acts| && 0 <= k < |acts[i].associatedParameterLongNames|
          ensures exists j :: 0 <= j < |all| && all[j].longName == acts[i].associatedParameterLongNames[k]
        {
          assert acts[i].associatedParameterLongNames[k] in t.byLong;
        }
      }
    }
  }
}
