/**
 * The token stream: a forward-only cursor over the shell arguments whose
 * current token is computed eagerly by a total classification of the
 * argument under the cursor.
 */
module TokenStream {
  import opened Wrappers
  import opened TokenSyntax

  datatype TokenKind = LongParameter | ShortParameter | Error | Literal | EndOfStream

  /** `errorMessage` is `None` for the source's absent optional field. */
  datatype Token = Token(kind: TokenKind, value: string, errorMessage: Option<string>, tokenIndex: nat)

  predicate StartsWith(s: string, prefix: string) {
    |prefix| <= |s| && s[..|prefix|] == prefix
  }

  /** `JSON.stringify` of a string without quotes, backslashes or control characters. */
  function Quote(s: string): string {
    "\"" + s + "\""
  }

  function LongSyntaxMessage(arg: string): string {
    "The argument " + Quote(arg) + " looks like a long parameter name but has incorrect syntax: "
    + "The name must be lower-case and use dash delimiters (e.g. \"--do-a-thing\")"
  }

  function ShortSyntaxMessage(arg: string): string {
    "The argument " + Quote(arg) + " looks like a short parameter name but has incorrect syntax: "
    + "The name must be a dash followed by a single upper-case or lower-case letter (e.g. \"-a\")"
  }

  /**
   * The token at position `tokenIndex` of `shellArgs`. Past the end it is
   * EndOfStream; otherwise the raw argument is kept as the value and its kind
   * follows from its leading dashes and the two name patterns.
   */
  function MakeCurrentToken(shellArgs: seq<string>, tokenIndex: nat): (t: Token)
    ensures t.tokenIndex == tokenIndex
    ensures t.kind == EndOfStream <==> tokenIndex >= |shellArgs|
    ensures t.kind == EndOfStream ==> t.value == ""
    ensures tokenIndex < |shellArgs| ==> t.value == shellArgs[tokenIndex]
    ensures tokenIndex < |shellArgs| ==> (t.kind == LongParameter <==> IsLongName(shellArgs[tokenIndex]))
    ensures tokenIndex < |shellArgs| ==> (t.kind == ShortParameter <==> IsShortName(shellArgs[tokenIndex]))
    ensures tokenIndex < |shellArgs| ==> (t.kind == Literal <==> !StartsWith(shellArgs[tokenIndex], "-"))
    ensures t.errorMessage.Some? <==> t.kind == Error
    ensures t.kind == Error ==>
      t.errorMessage.value == if StartsWith(t.value, "--") then LongSyntaxMessage(t.value) else ShortSyntaxMessage(t.value)
  {
    if tokenIndex >= |shellArgs| then
      Token(EndOfStream, "", None, tokenIndex)
    else
      var arg := shellArgs[tokenIndex];
      NamesAreDisjoint(arg);
      if StartsWith(arg, "--") then
        if IsLongName(arg) then Token(LongParameter, arg, None, tokenIndex)
        else Token(Error, arg, Some(LongSyntaxMessage(arg)), tokenIndex)
      else if StartsWith(arg, "-") then
        if IsShortName(arg) then Token(ShortParameter, arg, None, tokenIndex)
        else Token(Error, arg, Some(ShortSyntaxMessage(arg)), tokenIndex)
      else
        Token(Literal, arg, None, tokenIndex)
  }

  /**
   * An argument is an Error token exactly when it starts with a dash but matches
   * neither name pattern; so "-", "-12", "--" and "--Bad" are all errors.
   */
  lemma ErrorTokens(shellArgs: seq<string>, tokenIndex: nat)
    requires tokenIndex < |shellArgs|
    ensures var arg := shellArgs[tokenIndex];
      MakeCurrentToken(shellArgs, tokenIndex).kind == Error <==>
        StartsWith(arg, "-") && !IsLongName(arg) && !IsShortName(arg)
  {
    var arg := shellArgs[tokenIndex];
    NamesAreDisjoint(arg);
    if IsLongName(arg) || IsShortName(arg) {
      assert StartsWith(arg, "-");
    }
  }

  class TokenStream {
    const shellArgs: seq<string>
    var tokenIndex: nat
    var currentToken: Token

    /** The cursor never passes the end and the cached token is the one under it. */
    ghost predicate Valid()
      reads this
    {
      tokenIndex <= |shellArgs| && currentToken == MakeCurrentToken(shellArgs, tokenIndex)
    }

    constructor (shellArgs: seq<string>)
      ensures Valid() && this.shellArgs == shellArgs && tokenIndex == 0
    {
      this.shellArgs := shellArgs;
      tokenIndex := 0;
      currentToken := MakeCurrentToken(shellArgs, 0);
    }

    /** Reading the current token changes nothing. */
    function CurrentToken(): (t: Token)
      reads this
      requires Valid()
      ensures t == MakeCurrentToken(shellArgs, tokenIndex)
      ensures t.tokenIndex == tokenIndex
    {
      currentToken
    }

    /** Moving past the end is an internal error of the caller, so it is excluded here. */
    method Advance()
      requires Valid() && tokenIndex < |shellArgs|
      modifies this
      ensures Valid()
      ensures tokenIndex == old(tokenIndex) + 1
    {
      tokenIndex := tokenIndex + 1;
      currentToken := MakeCurrentToken(shellArgs, tokenIndex);
    }
  }
}
