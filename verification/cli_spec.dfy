/**
 * The declarative description of a command line that the parser is compiled
 * from. Documentation-only fields (tool name, descriptions, summaries and the
 * unenforced `required` flag) are omitted.
 */
module CliSpec {
  import opened Wrappers

  /** A flag takes no argument; a string parameter takes one, shown as `argumentName` in help. */
  datatype ParamKind = Flag | Str(argumentName: string)

  /** `longName` includes the two dashes ("--do-something"), `shortName` the one dash ("-d"). */
  datatype Param = Param(kind: ParamKind, longName: string, shortName: Option<string>)

  datatype Action = Action(actionName: string, associatedParameterLongNames: seq<string>)

  datatype Spec = Spec(globalParameters: seq<Param>, actionParameters: seq<Param>, actions: seq<Action>)

  /** The short name is tested for truthiness, so an empty short name counts as none. */
  predicate HasShortName(p: Param) {
    p.shortName.Some? && p.shortName.value != ""
  }
}
