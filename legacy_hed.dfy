/** The first, partial string validator of `validators/hed.js`: a tokenizer
    that counts parentheses instead of tracking a depth, treats `~` as a token
    of its own and reports `{` and `}`, a formatter, and a tag validator that
    rejects every tag. Issues are plain message strings pushed onto an array
    owned by the caller, modelled as the `IssueList` object. */
module LegacyHed {
  import opened JsStrings

  /** The caller's issue array, which the functions push onto. */
  class IssueList {
    var items: seq<string>

    constructor ()
      ensures items == []
    {
      items := [];
    }
  }

  const UnsupportedCharacter := "Unsupported character"
  const NotYetImplemented := "Not yet implemented"

  /** `hedStringIsEmpty`: nothing but white space. */
  function HedStringIsEmpty(hedString: string): (r: bool)
    ensures r <==> IsBlank(hedString)
  {
    TrimBlank(hedString);
    Trim(hedString) == []
  }

  // ---------------------------------------------------------------------------
  // splitHedString, as a function of the characters read so far
  // ---------------------------------------------------------------------------

  /** The variables of the loop of `splitHedString`, and how many
      unsupported characters it has reported. */
  datatype Splitter = Splitter(opening: nat, closing: nat, current: string, tags: seq<string>, unsupported: nat)

  /** The tags with the current tag, trimmed, pushed unless it is blank. */
  function Flush(st: Splitter): seq<string> {
    if IsBlank(st.current) then st.tags else st.tags + [Trim(st.current)]
  }

  /** One character of the loop. A quote is skipped; parentheses are only
      counted; `~` and `,` cut while the counts are equal, `~` also becoming
      a tag of its own; `{` and `}` are reported and cut. */
  function Step(st: Splitter, c: char): Splitter {
    if c == '"' then st
    else if c == '(' then st.(opening := st.opening + 1)
    else if c == ')' then st.(closing := st.closing + 1)
    else if st.opening == st.closing && c == '~' then st.(tags := Flush(st) + ["~"], current := "")
    else if st.opening == st.closing && c == ',' then st.(tags := Flush(st), current := "")
    else if c == '{' || c == '}' then st.(tags := Flush(st), current := "", unsupported := st.unsupported + 1)
    else st.(current := st.current + [c])
  }

  /** The loop variables after the first `n` characters. */
  function SplitTo(s: string, n: nat): Splitter
    requires n <= |s|
  {
    if n == 0 then Splitter(0, 0, "", [], 0) else Step(SplitTo(s, n - 1), s[n - 1])
  }

  /** The tags `splitHedString` returns. */
  function Tokens(s: string): seq<string> {
    Flush(SplitTo(s, |s|))
  }

  /** How many `Unsupported character` messages it pushes. */
  function UnsupportedCount(s: string): nat {
    SplitTo(s, |s|).unsupported
  }

  function Repeat(message: string, n: nat): (r: seq<string>)
    ensures |r| == n && forall k | 0 <= k < n :: r[k] == message
  {
    seq(n, _ => message)
  }

  /** `splitHedString`: the tags of the string, with one issue pushed per
      unsupported character. */
  method SplitHedString(hedString: string, issues: IssueList) returns (hedTags: seq<string>)
    modifies issues
    ensures hedTags == Tokens(hedString)
    ensures issues.items == old(issues.items) + Repeat(UnsupportedCharacter, UnsupportedCount(hedString))
  {
    hedTags := [];
    var numberOfOpeningParentheses := 0;
    var numberOfClosingParentheses := 0;
    var currentTag := "";
    ghost var unsupported := 0;
    for i := 0 to |hedString|
      invariant SplitTo(hedString, i) ==
        Splitter(numberOfOpeningParentheses, numberOfClosingParentheses, currentTag, hedTags, unsupported)
      invariant issues.items == old(issues.items) + Repeat(UnsupportedCharacter, unsupported)
    {
      var character := hedString[i];
      if character == '"' {
        continue;
      } else if character == '(' {
        numberOfOpeningParentheses := numberOfOpeningParentheses + 1;
      } else if character == ')' {
        numberOfClosingParentheses := numberOfClosingParentheses + 1;
      } else if numberOfOpeningParentheses == numberOfClosingParentheses && character == '~' {
        if !HedStringIsEmpty(currentTag) {
          hedTags := hedTags + [Trim(currentTag)];
        }
        hedTags := hedTags + ["~"];
        currentTag := "";
      } else if numberOfOpeningParentheses == numberOfClosingParentheses && character == ',' {
        if !HedStringIsEmpty(currentTag) {
          hedTags := hedTags + [Trim(currentTag)];
        }
        currentTag := "";
      } else if character == '{' || character == '}' {
        issues.items := issues.items + [UnsupportedCharacter];
        assert Repeat(UnsupportedCharacter, unsupported + 1) == Repeat(UnsupportedCharacter, unsupported) + [UnsupportedCharacter];
        unsupported := unsupported + 1;
        if !HedStringIsEmpty(currentTag) {
          hedTags := hedTags + [Trim(currentTag)];
        }
        currentTag := "";
      } else {
        currentTag := currentTag + [character];
      }
    }
    if !HedStringIsEmpty(currentTag) {
      hedTags := hedTags + [Trim(currentTag)];
    }
  }

  // ---------------------------------------------------------------------------
  // What the tokens look like
  // ---------------------------------------------------------------------------

  /** None of the characters the tokenizer consumes. */
  predicate NoMarks(t: string) {
    '(' !in t && ')' !in t && '"' !in t && '{' !in t && '}' !in t
  }

  /** A token is `~` or a non-empty trimmed text without quotes, parentheses
      or curly braces. */
  predicate CleanToken(t: string) {
    NoMarks(t) && (t == "~" || (t != [] && IsTrimmed(t)))
  }

  lemma {:induction false} FlushClean(st: Splitter)
    requires NoMarks(st.current) && forall t | t in st.tags :: CleanToken(t)
    ensures forall t | t in Flush(st) :: CleanToken(t)
  {
    if !IsBlank(st.current) {
      var t := Trim(st.current);
      TrimFacts(st.current);
      TrimBlank(st.current);
      forall c | c in t
        ensures c in st.current
      {
        TrimMembers(st.current, c);
      }
    }
  }

  lemma {:induction false} SplitToClean(s: string, n: nat)
    requires n <= |s|
    ensures NoMarks(SplitTo(s, n).current)
    ensures forall t | t in SplitTo(s, n).tags :: CleanToken(t)
  {
    if n > 0 {
      var st := SplitTo(s, n - 1);
      SplitToClean(s, n - 1);
      FlushClean(st);
      var c := s[n - 1];
      if !(c == '"' || c == '(' || c == ')' || c == '~' || c == ',' || c == '{' || c == '}') {
        assert forall d | d in st.current + [c] :: d in st.current || d == c;
      }
    }
  }

  /** Tokens never hold a quote, a parenthesis or a curly brace, and are
      trimmed and non-empty, or the tilde token. */
  lemma {:induction false} TokensClean(s: string)
    ensures forall t | t in Tokens(s) :: CleanToken(t)
  {
    SplitToClean(s, |s|);
    FlushClean(SplitTo(s, |s|));
  }

  /** Every `{` and every `}` is reported once, and nothing else is. */
  lemma {:induction false} UnsupportedCounts(s: string, n: nat)
    requires n <= |s|
    ensures SplitTo(s, n).unsupported == CountChar(s[..n], '{') + CountChar(s[..n], '}')
  {
    if n > 0 {
      UnsupportedCounts(s, n - 1);
      assert s[..n][..n - 1] == s[..n - 1];
    }
  }

  lemma {:induction false} UnsupportedCountIsBraces(s: string)
    ensures UnsupportedCount(s) == CountChar(s, '{') + CountChar(s, '}')
  {
    UnsupportedCounts(s, |s|);
    assert s[..|s|] == s;
  }

  /** Without parentheses the counts stay equal, so every `,` cuts and every
      `~` becomes a token: no token holds a comma, and the tilde tokens are
      exactly the tildes of the string. */
  lemma {:induction false} NoParenthesesCuts(s: string, n: nat)
    requires n <= |s| && '(' !in s && ')' !in s
    ensures SplitTo(s, n).opening == 0 && SplitTo(s, n).closing == 0
    ensures ',' !in SplitTo(s, n).current && '~' !in SplitTo(s, n).current
    ensures forall t | t in SplitTo(s, n).tags :: ',' !in t && (t == "~" || '~' !in t)
    ensures Occurrences(SplitTo(s, n).tags, "~") == CountChar(s[..n], '~')
  {
    if n > 0 {
      NoParenthesesCuts(s, n - 1);
      assert s[..n][..n - 1] == s[..n - 1];
      var c := s[n - 1];
      assert c in s;
      StepNoCut(SplitTo(s, n - 1), c);
    }
  }

  /** The loop state while no parenthesis has been seen: equal counts, and no
      comma and no tilde inside a tag. */
  predicate NoCut(st: Splitter) {
    && st.opening == 0 && st.closing == 0
    && ',' !in st.current && '~' !in st.current
    && forall t | t in st.tags :: ',' !in t && (t == "~" || '~' !in t)
  }

  /** A character other than a parenthesis keeps the counts at zero and the
      commas and tildes out of the tags; a tilde adds one `~` tag. */
  lemma StepNoCut(st: Splitter, c: char)
    requires NoCut(st) && c != '(' && c != ')'
    ensures NoCut(Step(st, c))
    ensures Occurrences(Step(st, c).tags, "~") == Occurrences(st.tags, "~") + (if c == '~' then 1 else 0)
  {
    FlushNoCut(st);
    if c == '~' {
      OccurrencesSnoc(Flush(st), "~", "~");
    } else if !(c == '"' || c == ',' || c == '{' || c == '}') {
      assert forall d | d in st.current + [c] :: d in st.current || d == c;
    }
  }

  lemma {:induction false} FlushNoCut(st: Splitter)
    requires ',' !in st.current && '~' !in st.current
    requires forall t | t in st.tags :: ',' !in t && (t == "~" || '~' !in t)
    ensures forall t | t in Flush(st) :: ',' !in t && (t == "~" || '~' !in t)
    ensures Occurrences(Flush(st), "~") == Occurrences(st.tags, "~")
  {
    if !IsBlank(st.current) {
      var t := Trim(st.current);
      forall c | c in t
        ensures c in st.current
      {
        TrimMembers(st.current, c);
      }
      assert '~' in "~";
      OccurrencesSnoc(st.tags, t, "~");
    }
  }

  lemma {:induction false} NoParenthesesTokens(s: string)
    requires '(' !in s && ')' !in s
    ensures forall t | t in Tokens(s) :: ',' !in t && (t == "~" || '~' !in t)
    ensures Occurrences(Tokens(s), "~") == CountChar(s, '~')
  {
    NoParenthesesCuts(s, |s|);
    FlushNoCut(SplitTo(s, |s|));
    assert s[..|s|] == s;
  }

  /** Inside unbalanced parentheses a comma stays in the tag. */
  lemma CommaInsideParentheses()
    ensures Tokens("(a,b)") == ["a,b"]
  {
    var p := "(a,b)";
    assert SplitTo(p, 1) == Splitter(1, 0, "", [], 0);
    assert SplitTo(p, 2) == Splitter(1, 0, "a", [], 0);
    assert SplitTo(p, 3) == Splitter(1, 0, "a,", [], 0);
    assert SplitTo(p, 4) == Splitter(1, 0, "a,b", [], 0);
    assert SplitTo(p, 5) == Splitter(1, 1, "a,b", [], 0);
    assert !IsWhitespace("a,b"[0]);
    TrimOfTrimmed("a,b");
  }

  /** So does a tilde. */
  lemma TildeInsideParentheses()
    ensures Tokens("(a~b)") == ["a~b"]
  {
    var q := "(a~b)";
    assert SplitTo(q, 1) == Splitter(1, 0, "", [], 0);
    assert SplitTo(q, 2) == Splitter(1, 0, "a", [], 0);
    assert SplitTo(q, 3) == Splitter(1, 0, "a~", [], 0);
    assert SplitTo(q, 4) == Splitter(1, 0, "a~b", [], 0);
    assert SplitTo(q, 5) == Splitter(1, 1, "a~b", [], 0);
    assert !IsWhitespace("a~b"[0]);
    TrimOfTrimmed("a~b");
  }

  /** At equal counts a tilde ends the pending tag and is a token itself. */
  lemma TildeToken()
    ensures Tokens("a,~b") == ["a", "~", "b"]
  {
    var r := "a,~b";
    TrimOfTrimmed("a");
    TrimOfTrimmed("b");
    assert !IsWhitespace("a"[0]) && !IsWhitespace("b"[0]);
    assert SplitTo(r, 1) == Splitter(0, 0, "a", [], 0);
    assert SplitTo(r, 2) == Splitter(0, 0, "", ["a"], 0);
    assert SplitTo(r, 3) == Splitter(0, 0, "", ["a", "~"], 0);
    assert SplitTo(r, 4) == Splitter(0, 0, "b", ["a", "~"], 0);
  }

  /** A blank string has no tokens, but so has `()`, which is not blank. */
  lemma {:induction false} BlankHasNoTokens(s: string)
    requires HedStringIsEmpty(s)
    ensures Tokens(s) == []
  {
    BlankSplit(s, |s|);
  }

  lemma {:induction false} BlankSplit(s: string, n: nat)
    requires n <= |s| && IsBlank(s)
    ensures SplitTo(s, n).tags == [] && SplitTo(s, n).unsupported == 0 && IsBlank(SplitTo(s, n).current)
  {
    if n > 0 {
      BlankSplit(s, n - 1);
      var c := s[n - 1];
      assert IsWhitespace(c);
    }
  }

  lemma ParenthesesOnly()
    ensures Tokens("()") == [] && !HedStringIsEmpty("()")
  {
    assert SplitTo("()", 2) == Splitter(1, 1, "", [], 0);
    assert !IsWhitespace("()"[0]);
  }

  // ---------------------------------------------------------------------------
  // findTopLevelTags, formatHedTag
  // ---------------------------------------------------------------------------

  /** `findTopLevelTags` is unfinished: it returns a copy of the list. */
  function FindTopLevelTags(hedTags: seq<string>): (topLevelTags: seq<string>)
    ensures |topLevelTags| == |hedTags| && forall k | 0 <= k < |hedTags| :: topLevelTags[k] == hedTags[k]
  {
    hedTags[..]
  }

  /** `formatHedTag`: the first newline becomes a space; unless only that is
      asked for, one leading and one trailing quote, then one leading and one
      trailing slash, are removed and the tag is lower-cased. The result of
      `trim` is discarded, so the tag is not trimmed. */
  function FormatHedTag(hedTag: string, onlyRemoveNewLine: bool): string {
    var t := ReplaceFirst(hedTag, '\n', " ");
    if onlyRemoveNewLine then t
    else ToLower(DropSuffix(DropPrefix(DropSuffix(DropPrefix(t, '"'), '"'), '/'), '/'))
  }

  lemma {:induction false} NoNewlineUnchanged(s: string)
    requires '\n' !in s
    ensures ReplaceFirst(s, '\n', " ") == s
  {
  }

  /** Asked only to remove the newline, a tag without one comes back as it was. */
  lemma {:induction false} FormatOnlyNewLine(s: string)
    requires '\n' !in s
    ensures FormatHedTag(s, true) == s
  {
    NoNewlineUnchanged(s);
  }

  /** Only the first newline is replaced. */
  lemma FormatFirstNewLine()
    ensures FormatHedTag("a\nb\n", true) == "a b\n"
  {
    assert IndexOf("a\nb\n", '\n') == 1;
  }

  /** A full format is lower case: formatting it again changes nothing of its case. */
  lemma {:induction false} FormatLowerCase(s: string)
    ensures ToLower(FormatHedTag(s, false)) == FormatHedTag(s, false)
  {
    var t := ReplaceFirst(s, '\n', " ");
    ToLowerIdempotent(DropSuffix(DropPrefix(DropSuffix(DropPrefix(t, '"'), '"'), '/'), '/'));
  }

  /** The surrounding quotes and slashes go, one of each on each side. */
  lemma {:induction false} FormatStrips(x: string)
    requires '\n' !in x
    ensures FormatHedTag("\"/" + x + "/\"", false) == ToLower(x)
    ensures FormatHedTag("//" + x + "//", false) == ToLower("/" + x + "/")
  {
    var a := "\"/" + x + "/\"";
    assert '\n' !in a by {
      assert forall k | 0 <= k < |a| :: a[k] == '"' || a[k] == '/' || a[k] in x;
    }
    NoNewlineUnchanged(a);
    assert DropPrefix(a, '"') == "/" + x + "/\"";
    assert DropSuffix("/" + x + "/\"", '"') == "/" + x + "/";
    assert DropPrefix("/" + x + "/", '/') == x + "/";
    assert DropSuffix(x + "/", '/') == x;
    var b := "//" + x + "//";
    assert '\n' !in b by {
      assert forall k | 0 <= k < |b| :: b[k] == '/' || b[k] in x;
    }
    NoNewlineUnchanged(b);
    assert DropPrefix(b, '"') == b;
    assert DropSuffix(b, '"') == b;
    assert DropPrefix(b, '/') == "/" + x + "//";
    assert DropSuffix("/" + x + "//", '/') == "/" + x + "/";
  }

  /** White space around the tag is kept. */
  lemma FormatKeepsSpaces()
    ensures FormatHedTag(" A ", false) == " a "
  {
    NoNewlineUnchanged(" A ");
  }

  // ---------------------------------------------------------------------------
  // validateHedTag, validateHedString
  // ---------------------------------------------------------------------------

  /** `validateHedTag` is a stub: every tag fails, with one message. */
  method ValidateHedTag(tag: string, issues: IssueList) returns (valid: bool)
    modifies issues
    ensures !valid
    ensures issues.items == old(issues.items) + [NotYetImplemented]
  {
    issues.items := issues.items + [NotYetImplemented];
    valid := false;
  }

  /** `validateHedString`: valid exactly when the string has no tags. The
      conjunction short-circuits, so the stub is asked about the first tag only. */
  method ValidateHedString(hedString: string, issues: IssueList) returns (valid: bool)
    modifies issues
    ensures valid <==> Tokens(hedString) == []
    ensures issues.items == old(issues.items) + Repeat(UnsupportedCharacter, UnsupportedCount(hedString))
                            + (if Tokens(hedString) == [] then [] else [NotYetImplemented])
  {
    var hedTags := SplitHedString(hedString, issues);
    ghost var afterSplit := issues.items;
    valid := true;
    for i := 0 to |hedTags|
      invariant valid <==> i == 0
      invariant issues.items == afterSplit + (if i == 0 then [] else [NotYetImplemented])
    {
      if valid {
        valid := ValidateHedTag(hedTags[i], issues);
      }
    }
  }
}
