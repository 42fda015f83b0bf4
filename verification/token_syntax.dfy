/**
 * The lexical rules of the command line: the four anchored patterns (long name,
 * short name, environment-variable name, action name) as character-level
 * predicates, and the mapping from a long parameter name to the identifier that
 * keys its parsed result.
 */
module TokenSyntax {

  // ---------------------------------------------------------------------------
  // Character classes (ASCII only)
  // ---------------------------------------------------------------------------

  predicate IsLowerLetter(c: char) { 'a' <= c <= 'z' }

  predicate IsUpperLetter(c: char) { 'A' <= c <= 'Z' }

  predicate IsDigit(c: char) { '0' <= c <= '9' }

  /** `[a-zA-Z]` */
  predicate IsAsciiLetter(c: char) { IsLowerLetter(c) || IsUpperLetter(c) }

  /** `[a-z0-9]` */
  predicate IsLowerAlnum(c: char) { IsLowerLetter(c) || IsDigit(c) }

  /**
   * `toUpperCase` restricted to ASCII: the converter only applies it to a letter.
   * A lower-case letter becomes the capital at the same place in the alphabet.
   */
  function ToUpper(c: char): (u: char)
    ensures IsLowerLetter(c) ==> IsUpperLetter(u) && u as int - 'A' as int == c as int - 'a' as int
    ensures !IsLowerLetter(c) ==> u == c
  {
    if IsLowerLetter(c) then (c as int - 'a' as int + 'A' as int) as char else c
  }

  function ToLower(c: char): (l: char)
    ensures IsUpperLetter(c) ==> IsLowerLetter(l) && l as int - 'a' as int == c as int - 'A' as int
    ensures !IsUpperLetter(c) ==> l == c
  {
    if IsUpperLetter(c) then (c as int - 'A' as int + 'a' as int) as char else c
  }

  /** Upper-casing a lower-case letter and lower-casing a capital undo each other. */
  lemma CaseRoundTrip(c: char)
    ensures IsLowerLetter(c) ==> ToLower(ToUpper(c)) == c
    ensures IsUpperLetter(c) ==> ToUpper(ToLower(c)) == c
  {
  }

  // ---------------------------------------------------------------------------
  // The four patterns
  // ---------------------------------------------------------------------------

  /**
   * The pattern `[a-z0-9]+([sep][a-z0-9]+)*`, read left to right: a run
   * character, then either the end, more of the same run, or one separator
   * that opens the next run.
   */
  predicate SeparatedRuns(t: string, seps: set<char>)
    decreases |t|
  {
    && |t| >= 1
    && IsLowerAlnum(t[0])
    && (|t| == 1 || SeparatedRuns(t[1..], seps) || (t[1] in seps && SeparatedRuns(t[2..], seps)))
  }

  /** `^-(-[a-z0-9]+)+$`, that is `--` followed by `[a-z0-9]+(-[a-z0-9]+)*`. Example: "--do-something". */
  predicate IsLongName(s: string) {
    |s| >= 2 && s[0] == '-' && s[1] == '-' && SeparatedRuns(s[2..], {'-'})
  }

  /** `^-[a-zA-Z]$`. Example: "-d". */
  predicate IsShortName(s: string) {
    |s| == 2 && s[0] == '-' && IsAsciiLetter(s[1])
  }

  /** `^[A-Z_][A-Z0-9_]*$`. Example: "THE_SETTING". */
  predicate IsEnvironmentVariableName(s: string) {
    && |s| >= 1
    && (IsUpperLetter(s[0]) || s[0] == '_')
    && forall i :: 1 <= i < |s| ==> IsUpperLetter(s[i]) || IsDigit(s[i]) || s[i] == '_'
  }

  /** `^[a-z][a-z0-9]*([-:][a-z0-9]+)*$`. Example: "do-something". */
  predicate IsActionName(s: string) {
    |s| >= 1 && IsLowerLetter(s[0]) && SeparatedRuns(s, {'-', ':'})
  }

  // ---------------------------------------------------------------------------
  // Independent, position-wise descriptions of the patterns
  // ---------------------------------------------------------------------------

  /**
   * Every character is a run character or a separator, the first and the last
   * are run characters, and no two non-run characters are adjacent.
   */
  ghost predicate FlatRuns(t: string, seps: set<char>) {
    && |t| >= 1
    && IsLowerAlnum(t[0])
    && IsLowerAlnum(t[|t| - 1])
    && (forall i :: 0 <= i < |t| ==> IsLowerAlnum(t[i]) || t[i] in seps)
    && (forall i :: 0 <= i < |t| - 1 && !IsLowerAlnum(t[i]) ==> IsLowerAlnum(t[i + 1]))
  }

  lemma {:induction false} SeparatedRunsIsFlat(t: string, seps: set<char>)
    ensures SeparatedRuns(t, seps) <==> FlatRuns(t, seps)
    decreases |t|
  {
    if |t| >= 2 {
      SeparatedRunsIsFlat(t[1..], seps);
      SeparatedRunsIsFlat(t[2..], seps);
      if FlatRuns(t, seps) {
        if IsLowerAlnum(t[1]) {
          assert FlatRuns(t[1..], seps);
        } else {
          assert t[1] in seps && IsLowerAlnum(t[2]);
          assert FlatRuns(t[2..], seps);
        }
      }
      if SeparatedRuns(t, seps) {
        if SeparatedRuns(t[1..], seps) {
          assert FlatRuns(t[1..], seps);
          forall i | 0 <= i < |t| ensures IsLowerAlnum(t[i]) || t[i] in seps {
            if i > 0 { assert t[i] == t[1..][i - 1]; }
          }
          forall i | 0 <= i < |t| - 1 && !IsLowerAlnum(t[i]) ensures IsLowerAlnum(t[i + 1]) {
            assert t[i] == t[1..][i - 1];
          }
        } else {
          assert t[1] in seps && FlatRuns(t[2..], seps);
          forall i | 0 <= i < |t| ensures IsLowerAlnum(t[i]) || t[i] in seps {
            if i > 1 { assert t[i] == t[2..][i - 2]; }
          }
          forall i | 0 <= i < |t| - 1 && !IsLowerAlnum(t[i]) ensures IsLowerAlnum(t[i + 1]) {
            if i > 1 { assert t[i] == t[2..][i - 2]; }
          }
        }
      }
    }
  }

  /**
   * A valid long name is "--" followed by dash-separated non-empty runs of
   * `[a-z0-9]`: at least three characters, no trailing dash, no empty segment
   * after the leading pair of dashes, and therefore no upper-case letter.
   */
  lemma LongNameShape(s: string)
    ensures IsLongName(s) <==>
      && |s| >= 3 && s[0] == '-' && s[1] == '-' && s[|s| - 1] != '-'
      && (forall i :: 2 <= i < |s| ==> IsLowerAlnum(s[i]) || s[i] == '-')
      && (forall i :: 2 <= i < |s| - 1 && s[i] == '-' ==> s[i + 1] != '-')
      && s[2] != '-'
    ensures IsLongName(s) ==> forall i :: 0 <= i < |s| ==> !IsUpperLetter(s[i])
  {
    if |s| >= 2 {
      var t := s[2..];
      SeparatedRunsIsFlat(t, {'-'});
      assert forall i :: 2 <= i < |s| ==> s[i] == t[i - 2];
    }
  }

  /**
   * A valid action name starts with a lower-case letter, uses only `[a-z0-9]`,
   * `-` and `:`, does not end with a separator and has no two separators in a row.
   */
  lemma ActionNameShape(s: string)
    ensures IsActionName(s) <==>
      && |s| >= 1 && IsLowerLetter(s[0]) && IsLowerAlnum(s[|s| - 1])
      && (forall i :: 0 <= i < |s| ==> IsLowerAlnum(s[i]) || s[i] == '-' || s[i] == ':')
      && (forall i :: 0 <= i < |s| - 1 && !IsLowerAlnum(s[i]) ==> IsLowerAlnum(s[i + 1]))
  {
    SeparatedRunsIsFlat(s, {'-', ':'});
  }

  /**
   * The wording of section 8.1 of IEEE Std 1003.1-2001: names consist solely of
   * upper-case letters, digits and '_', and do not begin with a digit.
   */
  lemma EnvironmentVariableNameIsPortable(s: string)
    ensures IsEnvironmentVariableName(s) <==>
      && |s| >= 1
      && !IsDigit(s[0])
      && forall i :: 0 <= i < |s| ==> IsUpperLetter(s[i]) || IsDigit(s[i]) || s[i] == '_'
  {
  }

  /** A short name never starts with two dashes, so it can never be mistaken for a long name. */
  lemma NamesAreDisjoint(s: string)
    ensures IsLongName(s) ==> |s| >= 3 && s[..2] == "--"
    ensures IsShortName(s) ==> s[..1] == "-" && s[..2] != "--"
    ensures !(IsLongName(s) && IsShortName(s))
  {
    if IsLongName(s) { LongNameShape(s); }
  }

  // ---------------------------------------------------------------------------
  // String.prototype.split('-') and its inverse
  // ---------------------------------------------------------------------------

  /** The pieces between the dashes of `s`, in order; `""` splits into `[""]`. */
  function Split(s: string): (parts: seq<string>)
    ensures |parts| >= 1
    ensures forall k :: 0 <= k < |parts| ==> '-' !in parts[k]
    decreases |s|
  {
    if s == [] then [""]
    else
      var rest := Split(s[1..]);
      if s[0] == '-' then [""] + rest
      else [[s[0]] + rest[0]] + rest[1..]
  }

  /** The pieces glued back together with a dash between neighbours. */
  function Join(parts: seq<string>): string
    requires |parts| >= 1
    decreases |parts|
  {
    if |parts| == 1 then parts[0] else parts[0] + "-" + Join(parts[1..])
  }

  lemma {:induction false} JoinSplit(s: string)
    ensures Join(Split(s)) == s
    decreases |s|
  {
    if s != [] {
      JoinSplit(s[1..]);
      var rest := Split(s[1..]);
      if s[0] == '-' {
        assert Split(s) == [""] + rest;
        assert ([""] + rest)[1..] == rest;
      } else if |rest| == 1 {
        assert Split(s) == [[s[0]] + rest[0]];
      } else {
        assert Split(s)[1..] == rest[1..];
        assert Join(rest) == rest[0] + "-" + Join(rest[1..]);
      }
    }
  }

  lemma {:induction false} SplitJoin(parts: seq<string>)
    requires |parts| >= 1
    requires forall k :: 0 <= k < |parts| ==> '-' !in parts[k]
    ensures Split(Join(parts)) == parts
    decreases |parts|, |parts[0]|
  {
    if |parts[0]| > 0 {
      var tail := [parts[0][1..]] + parts[1..];
      assert '-' !in tail[0] by { assert forall c :: c in parts[0][1..] ==> c in parts[0]; }
      assert forall k :: 1 <= k < |tail| ==> tail[k] == parts[k];
      SplitJoin(tail);
      assert Join(parts)[1..] == Join(tail) by {
        if |parts| > 1 {
          assert Join(tail) == tail[0] + "-" + Join(tail[1..]);
          assert tail[1..] == parts[1..];
        }
      }
      assert Join(parts)[0] == parts[0][0] != '-' by { assert parts[0][0] in parts[0]; }
      assert [parts[0][0]] + parts[0][1..] == parts[0];
    } else if |parts| > 1 {
      SplitJoin(parts[1..]);
      assert Join(parts) == "-" + Join(parts[1..]);
      assert Join(parts)[1..] == Join(parts[1..]);
    }
  }

  // ---------------------------------------------------------------------------
  // convertParameterLongNameToIdentifier
  // ---------------------------------------------------------------------------

  /**
   * One iteration of the converter's loop: an empty part is skipped; a part led
   * by a letter is appended as written while the result is still empty and with
   * its first letter capitalised afterwards; any other part is appended behind
   * an underscore.
   */
  function AppendPart(result: string, part: string): string {
    if |part| == 0 then result
    else if IsAsciiLetter(part[0]) then
      if |result| == 0 then result + part
      else result + ([ToUpper(part[0])] + part[1..])
    else result + ("_" + part)
  }

  /** The converter's loop run over `parts` starting from the partial result `result`. */
  function ConvertParts(result: string, parts: seq<string>): string
    decreases |parts|
  {
    if parts == [] then result else ConvertParts(AppendPart(result, parts[0]), parts[1..])
  }

  /** The identifier of a long name, e.g. "--example-flag-123-456" to "exampleFlag_123_456". */
  function ToIdentifier(parameterLongName: string): string {
    ConvertParts("", Split(parameterLongName))
  }

  /** The converter as the source writes it: a loop appending to a mutable result. */
  method ConvertParameterLongNameToIdentifier(parameterLongName: string) returns (result: string)
    ensures result == ToIdentifier(parameterLongName)
  {
    result := "";
    var parts := Split(parameterLongName);
    assert parts[0..] == parts;
    for k := 0 to |parts|
      invariant ConvertParts(result, parts[k..]) == ToIdentifier(parameterLongName)
    {
      var part := parts[k];
      assert parts[k..][1..] == parts[k + 1..];
      if |part| > 0 {
        var firstCharacter := part[0];
        if IsAsciiLetter(firstCharacter) {
          if |result| == 0 {
            result := result + part;
          } else {
            ghost var before := result;
            result := result + [ToUpper(firstCharacter)];
            result := result + part[1..];
            assert result == before + ([ToUpper(firstCharacter)] + part[1..]);
          }
        } else {
          ghost var before := result;
          result := result + "_";
          result := result + part;
          assert result == before + ("_" + part);
        }
      }
    }
    assert parts[|parts|..] == [];
  }

  // ---------------------------------------------------------------------------
  // Worked examples. Each example lemma takes its string as a parameter `s`
  // pinned by `requires s == "..."`, so that the literal appears once and the
  // recursive functions are not unfolded on it; the proof goes through the
  // generic lemmas about words joined with dashes.
  // ---------------------------------------------------------------------------

  lemma JoinCons(p: string, rest: seq<string>)
    requires |rest| >= 1
    ensures Join([p] + rest) == p + "-" + Join(rest)
  {
    assert ([p] + rest)[1..] == rest;
  }

  lemma JoinTwoWords(a: string, b: string)
    ensures Join(["", "", a, b]) == "--" + a + "-" + b
  {
    JoinCons(a, [b]);
    JoinCons("", [a, b]);
    JoinCons("", ["", a, b]);
  }

  lemma JoinFourWords(a: string, b: string, c: string, d: string)
    ensures Join(["", "", a, b, c, d]) == "--" + a + "-" + b + "-" + c + "-" + d
  {
    JoinCons(c, [d]);
    JoinCons(b, [c, d]);
    JoinCons(a, [b, c, d]);
    JoinCons("", [a, b, c, d]);
    JoinCons("", ["", a, b, c, d]);
  }

  lemma ExampleSplit(s: string, a: string, b: string, c: string, d: string)
    requires s == "--example-flag-123-456"
    requires a == "example" && b == "flag" && c == "123" && d == "456"
    ensures Split(s) == ["", "", a, b, c, d]
  {
    JoinFourWords(a, b, c, d);
    assert s == "--" + a + "-" + b + "-" + c + "-" + d;
    var parts := ["", "", a, b, c, d];
    assert forall k :: 0 <= k < |parts| ==> '-' !in parts[k];
    SplitJoin(parts);
  }

  /** Two leading empty pieces are skipped, a letter-led piece is kept and the next letter-led one capitalised. */
  lemma ConvertLetterLedPair(a: string, b: string, rest: seq<string>)
    requires |a| > 0 && IsAsciiLetter(a[0]) && |b| > 0 && IsAsciiLetter(b[0])
    ensures ConvertParts("", ["", "", a, b] + rest) == ConvertParts(a + ([ToUpper(b[0])] + b[1..]), rest)
  {
    SkipEmptyParts([a, b] + rest);
    assert ["", ""] + ([a, b] + rest) == ["", "", a, b] + rest;
    assert ([a, b] + rest)[1..] == [b] + rest;
    assert ([b] + rest)[1..] == rest;
    assert AppendPart("", a) == a;
    assert ConvertParts("", [a, b] + rest) == ConvertParts(a, [b] + rest);
    assert AppendPart(a, b) == a + ([ToUpper(b[0])] + b[1..]);
    assert ConvertParts(a, [b] + rest) == ConvertParts(AppendPart(a, b), rest);
  }

  /** Two pieces that are not letter-led are each appended behind an underscore. */
  lemma ConvertUnderscoredPair(r: string, c: string, d: string)
    requires |c| > 0 && !IsAsciiLetter(c[0]) && |d| > 0 && !IsAsciiLetter(d[0])
    ensures ConvertParts(r, [c, d]) == r + ("_" + c) + ("_" + d)
  {
    var rc := r + ("_" + c);
    assert AppendPart(r, c) == rc;
    assert [c, d][1..] == [d] && [d][1..] == [];
    assert ConvertParts(r, [c, d]) == ConvertParts(rc, [d]);
    assert AppendPart(rc, d) == rc + ("_" + d);
    assert ConvertParts(rc, [d]) == ConvertParts(rc + ("_" + d), []);
  }

  /** The converter's documented example. */
  lemma ConverterExample(s: string)
    requires s == "--example-flag-123-456"
    ensures ToIdentifier(s) == "exampleFlag_123_456"
  {
    var a, b, c, d := "example", "flag", "123", "456";
    ExampleSplit(s, a, b, c, d);
    ExamplePieces(a, b, c, d);
    FourWordIdentifier(s, a, b, c, d);
  }

  lemma ExamplePieces(a: string, b: string, c: string, d: string)
    requires a == "example" && b == "flag" && c == "123" && d == "456"
    ensures |a| > 0 && IsAsciiLetter(a[0]) && |b| > 0 && IsAsciiLetter(b[0])
    ensures |c| > 0 && !IsAsciiLetter(c[0]) && |d| > 0 && !IsAsciiLetter(d[0])
    ensures a + ([ToUpper(b[0])] + b[1..]) + ("_" + c) + ("_" + d) == "exampleFlag_123_456"
  {
  }

  /** Two letter-led words followed by two that are not: the second capitalised, the last two behind `_`. */
  lemma FourWordIdentifier(s: string, a: string, b: string, c: string, d: string)
    requires Split(s) == ["", "", a, b, c, d]
    requires |a| > 0 && IsAsciiLetter(a[0]) && |b| > 0 && IsAsciiLetter(b[0])
    requires |c| > 0 && !IsAsciiLetter(c[0]) && |d| > 0 && !IsAsciiLetter(d[0])
    ensures ToIdentifier(s) == a + ([ToUpper(b[0])] + b[1..]) + ("_" + c) + ("_" + d)
  {
    assert ["", "", a, b, c, d] == ["", "", a, b] + [c, d];
    ConvertLetterLedPair(a, b, [c, d]);
    ConvertUnderscoredPair(a + ([ToUpper(b[0])] + b[1..]), c, d);
  }

  /** One word after the leading dashes is appended as the first piece. */
  lemma OneWordIdentifier(s: string, a: string)
    requires s == "--" + a
    requires |a| > 0 && '-' !in a
    ensures ToIdentifier(s) == AppendPart("", a)
  {
    JoinCons("", [a]);
    JoinCons("", ["", a]);
    var parts := ["", "", a];
    assert Join(parts) == s;
    assert forall k :: 0 <= k < |parts| ==> '-' !in parts[k];
    SplitJoin(parts);
    SkipEmptyParts([a]);
    assert ["", ""] + [a] == parts;
    assert ConvertParts("", [a]) == ConvertParts(AppendPart("", a), []);
  }

  /** Two words after the leading dashes: the first as written, the second capitalised or behind `_`. */
  lemma TwoWordIdentifier(s: string, a: string, b: string)
    requires s == "--" + a + "-" + b
    requires |a| > 0 && |b| > 0 && '-' !in a && '-' !in b
    ensures ToIdentifier(s) == AppendPart(AppendPart("", a), b)
  {
    JoinTwoWords(a, b);
    var parts := ["", "", a, b];
    assert forall k :: 0 <= k < |parts| ==> '-' !in parts[k];
    SplitJoin(parts);
    SkipEmptyParts([a, b]);
    assert ["", ""] + [a, b] == parts;
    assert [a, b][1..] == [b];
    assert ConvertParts("", [a, b]) == ConvertParts(AppendPart("", a), [b]);
    assert ConvertParts(AppendPart("", a), [b]) == ConvertParts(AppendPart(AppendPart("", a), b), []);
  }

  /** The example name of a long parameter. */
  lemma ConverterExampleDoSomething(s: string)
    requires s == "--do-something"
    ensures ToIdentifier(s) == "doSomething"
  {
    var a, b := "do", "something";
    assert s == "--" + a + "-" + b;
    TwoWordIdentifier(s, a, b);
    assert AppendPart("", a) == a;
  }

  /** A digit-led first segment leaves the result non-empty, so the next letter-led segment is capitalised. */
  lemma ConverterExampleDigitFirst(s: string)
    requires s == "--1-a"
    ensures ToIdentifier(s) == "_1A"
  {
    var a, b := "1", "a";
    assert s == "--" + a + "-" + b;
    TwoWordIdentifier(s, a, b);
    assert AppendPart("", a) == "_1";
  }

  /**
   * Off the long-name pattern the conversion is not injective: a dash before a
   * letter and a capital letter give the same identifier.
   */
  lemma IdentifierCollisionOffPattern(s: string, t: string)
    requires s == "--a-b" && t == "--aB"
    ensures s != t && IsLongName(s) && !IsLongName(t)
    ensures ToIdentifier(s) == ToIdentifier(t) == "aB"
  {
    var a, b, ab := "a", "b", "aB";
    assert s == "--" + a + "-" + b;
    TwoWordIdentifier(s, a, b);
    assert AppendPart(AppendPart("", a), b) == ab;
    assert t == "--" + ab;
    OneWordIdentifier(t, ab);
    assert s[2..] == a + "-" + b;
    assert t[2..] == ab && !IsLowerAlnum(ab[1]);
  }

  lemma {:induction false} ConvertPartsHasNoDash(result: string, parts: seq<string>)
    requires '-' !in result
    requires forall k :: 0 <= k < |parts| ==> '-' !in parts[k]
    ensures '-' !in ConvertParts(result, parts)
    decreases |parts|
  {
    if parts != [] {
      var p := parts[0];
      var next := AppendPart(result, p);
      assert '-' !in next by {
        if |p| > 0 {
          assert forall c :: c in p[1..] ==> c in p;
          assert p[0] in p;
        }
      }
      ConvertPartsHasNoDash(next, parts[1..]);
    }
  }

  /** The pieces of `split('-')` hold no dash, so the identifier holds none either. */
  lemma IdentifierHasNoDash(parameterLongName: string)
    ensures '-' !in ToIdentifier(parameterLongName)
  {
    ConvertPartsHasNoDash("", Split(parameterLongName));
  }

  // ---------------------------------------------------------------------------
  // The mapping is injective on long names: a decoder and the round trip
  // ---------------------------------------------------------------------------

  /** A segment of a long name: a non-empty run of `[a-z0-9]`. */
  ghost predicate IsSegment(p: string) {
    |p| >= 1 && AllLowerAlnum(p)
  }

  /** Every piece is a segment. */
  ghost predicate AllSegments(parts: seq<string>)
    decreases |parts|
  {
    parts == [] || (IsSegment(parts[0]) && AllSegments(parts[1..]))
  }

  ghost predicate AllLowerAlnum(p: string)
    decreases |p|
  {
    p == [] || (IsLowerAlnum(p[0]) && AllLowerAlnum(p[1..]))
  }

  /**
   * Undo the converter one character at a time: a capital letter or an
   * underscore opens a new dash-separated segment.
   */
  ghost function DecodeChars(id: string): string
    decreases |id|
  {
    if id == [] then []
    else
      (if IsUpperLetter(id[0]) then "-" + [ToLower(id[0])]
       else if id[0] == '_' then "-"
       else [id[0]]) + DecodeChars(id[1..])
  }

  /** The long name an identifier came from. */
  ghost function FromIdentifier(id: string): string {
    if |id| > 0 && id[0] == '_' then "-" + DecodeChars(id) else "--" + DecodeChars(id)
  }

  lemma {:induction false} DecodeCharsAppend(a: string, b: string)
    ensures DecodeChars(a + b) == DecodeChars(a) + DecodeChars(b)
    decreases |a|
  {
    if a == [] {
      assert a + b == b;
    } else {
      assert (a + b)[0] == a[0];
      assert (a + b)[1..] == a[1..] + b;
      DecodeCharsAppend(a[1..], b);
    }
  }

  lemma {:induction false} DecodeSegment(p: string)
    requires AllLowerAlnum(p)
    ensures DecodeChars(p) == p
    decreases |p|
  {
    if p != [] {
      DecodeSegment(p[1..]);
    }
  }

  /** A capitalised segment decodes to a dash and the segment as written. */
  lemma DecodeCapitalised(c: char, rest: string)
    requires IsLowerLetter(c) && DecodeChars(rest) == rest
    ensures DecodeChars([ToUpper(c)] + rest) == "-" + ([c] + rest)
  {
    assert ([ToUpper(c)] + rest)[1..] == rest;
  }

  /** An underscore-led segment decodes to a dash and the segment as written. */
  lemma DecodeUnderscored(rest: string)
    requires DecodeChars(rest) == rest
    ensures DecodeChars("_" + rest) == "-" + rest
  {
    assert ("_" + rest)[1..] == rest;
  }

  /** The converted form of a segment, once the result is no longer empty, decodes to a dash and the segment. */
  lemma DecodePiece(p: string)
    requires IsSegment(p)
    ensures IsAsciiLetter(p[0]) ==> DecodeChars([ToUpper(p[0])] + p[1..]) == "-" + p
    ensures !IsAsciiLetter(p[0]) ==> DecodeChars("_" + p) == "-" + p
  {
    DecodeSegment(p[1..]);
    DecodeSegment(p);
    if IsAsciiLetter(p[0]) {
      DecodeCapitalised(p[0], p[1..]);
      assert [p[0]] + p[1..] == p;
    } else {
      DecodeUnderscored(p);
    }
  }

  /** After the first part, each segment decodes to a dash followed by the segment. */
  lemma DecodeLaterPiece(result: string, p: string)
    requires |result| > 0 && IsSegment(p)
    ensures DecodeChars(AppendPart(result, p)) == DecodeChars(result) + ("-" + p)
  {
    DecodePiece(p);
    if IsAsciiLetter(p[0]) {
      var piece := [ToUpper(p[0])] + p[1..];
      assert AppendPart(result, p) == result + piece;
      DecodeCharsAppend(result, piece);
    } else {
      var piece := "_" + p;
      assert AppendPart(result, p) == result + piece;
      DecodeCharsAppend(result, piece);
    }
  }

  /** Regrouping of the concatenations met when decoding segment after segment. */
  lemma Regroup(a: string, p: string, j: string)
    ensures (a + ("-" + p)) + ("-" + j) == a + ("-" + (p + "-" + j))
    ensures p + ("-" + j) == p + "-" + j
    ensures "-" + (("-" + p) + ("-" + j)) == "--" + (p + "-" + j)
    ensures a + ("-" + j) == a + "-" + j
    ensures ("-" + p) + "-" + j == "-" + (p + "-" + j)
    ensures "-" + ("-" + j) == "--" + j
  {
  }

  lemma {:induction false} ConvertPartsExtends(result: string, parts: seq<string>)
    ensures |ConvertParts(result, parts)| >= |result|
    ensures ConvertParts(result, parts)[..|result|] == result
    decreases |parts|
  {
    if parts != [] {
      var next := AppendPart(result, parts[0]);
      assert next[..|result|] == result;
      ConvertPartsExtends(next, parts[1..]);
    }
  }

  lemma {:induction false} DecodeLaterParts(result: string, parts: seq<string>)
    requires |result| > 0 && |parts| >= 1
    requires AllSegments(parts)
    ensures DecodeChars(ConvertParts(result, parts)) == DecodeChars(result) + ("-" + Join(parts))
    decreases |parts|
  {
    var next := AppendPart(result, parts[0]);
    DecodeLaterPiece(result, parts[0]);
    if |parts| > 1 {
      DecodeLaterParts(next, parts[1..]);
      Regroup(DecodeChars(result), parts[0], Join(parts[1..]));
    }
  }

  /** The pieces of a dash-separated run of segments are exactly those segments. */
  lemma {:induction false} SplitRuns(t: string)
    requires SeparatedRuns(t, {'-'})
    ensures AllSegments(Split(t))
    decreases |t|
  {
    var rest := Split(t[1..]);
    if |t| == 1 {
      assert t[1..] == [] && rest == [""];
      assert [t[0]] + "" == [t[0]] && [t[0]][1..] == [];
      assert Split(t) == [[t[0]]];
      assert AllLowerAlnum([t[0]]);
      assert [[t[0]]][1..] == [];
    } else if SeparatedRuns(t[1..], {'-'}) {
      SplitRuns(t[1..]);
      assert t[1] != '-';
      assert ([t[0]] + rest[0])[1..] == rest[0];
      assert IsSegment([t[0]] + rest[0]);
      assert Split(t) == [[t[0]] + rest[0]] + rest[1..];
      assert Split(t)[1..] == rest[1..];
    } else {
      SplitRuns(t[2..]);
      assert t[1..][0] == '-' && t[1..][1..] == t[2..];
      assert rest == [""] + Split(t[2..]);
      assert rest[0] == "" && rest[1..] == Split(t[2..]);
      assert [t[0]] + "" == [t[0]] && [t[0]][1..] == [];
      assert Split(t) == [[t[0]]] + Split(t[2..]);
      assert AllLowerAlnum([t[0]]);
      assert Split(t)[1..] == Split(t[2..]);
    }
  }

  /** Splitting a long name yields two empty pieces, then its segments. */
  lemma SplitLongName(s: string)
    requires |s| >= 2 && s[0] == '-' && s[1] == '-'
    ensures Split(s) == ["", ""] + Split(s[2..])
  {
    assert s[1..][0] == '-' && s[1..][1..] == s[2..];
    assert Split(s[1..]) == [""] + Split(s[2..]);
  }

  /** The converter skips the two empty pieces in front of a long name's segments. */
  lemma SkipEmptyParts(parts: seq<string>)
    ensures ConvertParts("", ["", ""] + parts) == ConvertParts("", parts)
  {
    assert (["", ""] + parts)[1..] == [""] + parts;
    assert ([""] + parts)[1..] == parts;
  }

  /** The first segment is appended as written when letter-led and behind an underscore otherwise. */
  lemma DecodeFirstPiece(p: string)
    requires IsSegment(p)
    ensures |AppendPart("", p)| > 0
    ensures IsAsciiLetter(p[0]) ==> AppendPart("", p)[0] != '_' && DecodeChars(AppendPart("", p)) == p
    ensures !IsAsciiLetter(p[0]) ==> AppendPart("", p)[0] == '_' && DecodeChars(AppendPart("", p)) == "-" + p
  {
    DecodeSegment(p);
    DecodePiece(p);
    if IsAsciiLetter(p[0]) {
      assert AppendPart("", p) == p;
    } else {
      assert AppendPart("", p) == "_" + p;
    }
  }

  /** The identifier starts with an underscore exactly when the first segment is not letter-led. */
  lemma IdentifierLead(parts: seq<string>)
    requires |parts| >= 1 && IsSegment(parts[0])
    ensures |ConvertParts("", parts)| > 0
    ensures ConvertParts("", parts)[0] == '_' <==> !IsAsciiLetter(parts[0][0])
  {
    var p := parts[0];
    var first := AppendPart("", p);
    assert ConvertParts("", parts) == ConvertParts(first, parts[1..]);
    ConvertPartsExtends(first, parts[1..]);
    DecodeFirstPiece(p);
    assert ConvertParts("", parts)[0] == ConvertParts("", parts)[..|first|][0];
  }

  /** The decoded first segment, then a dash and the joined remaining segments. */
  lemma DecodeCharsOfLaterSegments(first: string, p: string, rest: seq<string>)
    requires |first| > 0 && |rest| >= 1 && AllSegments(rest)
    ensures DecodeChars(ConvertParts(first, rest)) == DecodeChars(first) + "-" + Join(rest)
  {
    DecodeLaterParts(first, rest);
    Regroup(DecodeChars(first), p, Join(rest));
  }

  /** Decoding the characters of an identifier gives the joined segments, behind a dash when the first is not letter-led. */
  lemma DecodeCharsOfSegments(parts: seq<string>)
    requires |parts| >= 1 && AllSegments(parts)
    ensures IsAsciiLetter(parts[0][0]) ==> DecodeChars(ConvertParts("", parts)) == Join(parts)
    ensures !IsAsciiLetter(parts[0][0]) ==> DecodeChars(ConvertParts("", parts)) == "-" + Join(parts)
  {
    var p := parts[0];
    var first := AppendPart("", p);
    assert ConvertParts("", parts) == ConvertParts(first, parts[1..]);
    DecodeFirstPiece(p);
    if |parts| > 1 {
      DecodeCharsOfLaterSegments(first, p, parts[1..]);
      var j := Join(parts[1..]);
      assert Join(parts) == p + "-" + j;
      Regroup(p, p, j);
    }
  }

  /** The identifier of the first segment and the rest decodes back to "--" and the joined segments. */
  lemma DecodeIdentifierOfSegments(parts: seq<string>)
    requires |parts| >= 1
    requires AllSegments(parts)
    ensures FromIdentifier(ConvertParts("", parts)) == "--" + Join(parts)
  {
    IdentifierLead(parts);
    DecodeCharsOfSegments(parts);
    Regroup("", "", Join(parts));
  }

  lemma IdentifierRoundTrip(parameterLongName: string)
    requires IsLongName(parameterLongName)
    ensures FromIdentifier(ToIdentifier(parameterLongName)) == parameterLongName
  {
    var s := parameterLongName;
    var t := s[2..];
    SplitLongName(s);
    SkipEmptyParts(Split(t));
    SplitRuns(t);
    JoinSplit(t);
    DecodeIdentifierOfSegments(Split(t));
    assert s == "--" + t;
  }

  /** Distinct long names give distinct identifiers, as the converter's comment claims. */
  lemma IdentifierInjective(a: string, b: string)
    requires IsLongName(a) && IsLongName(b)
    requires ToIdentifier(a) == ToIdentifier(b)
    ensures a == b
  {
    IdentifierRoundTrip(a);
    IdentifierRoundTrip(b);
  }
}
