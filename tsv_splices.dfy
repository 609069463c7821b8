// The string rewriting a BIDS TSV row goes through when its sidecar strings
// carry column splices (`{column}`): each splice is replaced by the value the
// named column takes in the row, and the punctuation that empty splices leave
// behind is cleaned up.
//
// The validator does both with regular expressions.  Each expression is
// written out here as a scanner with the same matches:
//   - splices       /\{([^{}]*?)\}/g
//   - empty groups  /\(\s*[,\s]*(\(\s*[,\s]*\))*[,\s]*\)/g
//   - leading run   /^\s*,+\s*/
//   - trailing run  /\s*,+\s*$/
//   - double comma  /,\s*,/g
// A global `replace` scans left to right, replaces each match and resumes
// after it; a non-global one replaces the first match only.
module TsvSplices {
  import opened JsStrings

  // ---------------------------------------------------------------------------
  // Splice substitution
  // ---------------------------------------------------------------------------

  predicate IsBrace(c: char) {
    c == '{' || c == '}'
  }

  predicate BraceFree(s: string) {
    forall k | 0 <= k < |s| :: !IsBrace(s[k])
  }

  /** The first brace at or after `i`, or `|s|` when there is none. */
  function NextBrace(s: string, i: nat): (j: nat)
    requires i <= |s|
    ensures i <= j <= |s|
    ensures forall k | i <= k < j :: !IsBrace(s[k])
    ensures j < |s| ==> IsBrace(s[j])
    decreases |s| - i
  {
    if i == |s| || IsBrace(s[i]) then i else NextBrace(s, i + 1)
  }

  /** The values a splice treats as missing (`null` and `undefined` have no
      counterpart among strings). */
  predicate InNullSet(v: string) {
    v == "" || v == "n/a"
  }

  /** The text that replaces `{name}`: the column's value in the row, or the
      empty string when the column is absent or its value is in the null set. */
  function Resolve(name: string, columnMap: map<string, string>): (r: string)
    ensures r == "" <==> name !in columnMap || InNullSet(columnMap[name])
    ensures r != "" ==> r == columnMap[name]
  {
    if name in columnMap && !InNullSet(columnMap[name]) then columnMap[name] else ""
  }

  /** The splice at the start of `s`: a `{` whose next brace is a `}`.  The
      result is the index of that `}`. */
  function SpliceAt(s: string): (r: int)
    ensures -1 <= r < |s|
    ensures r >= 0 ==> s[0] == '{' && s[r] == '}' && BraceFree(s[1..r])
  {
    if s != [] && s[0] == '{' && NextBrace(s, 1) < |s| && s[NextBrace(s, 1)] == '}' then
      var j := NextBrace(s, 1);
      assert forall k | 0 <= k < j - 1 :: s[1..j][k] == s[k + 1];
      j
    else -1
  }

  /** `unspliced.replace(braceRegEx, resolve)`: every splice replaced by its
      resolution, everything else copied. */
  function Substitute(s: string, columnMap: map<string, string>): string
    decreases |s|
  {
    if s == [] then []
    else if SpliceAt(s) >= 0 then Resolve(s[1..SpliceAt(s)], columnMap) + Substitute(s[SpliceAt(s) + 1..], columnMap)
    else [s[0]] + Substitute(s[1..], columnMap)
  }

  /** A string without `{` is left as it is. */
  lemma {:induction false} SubstituteNoSplice(s: string, columnMap: map<string, string>)
    requires '{' !in s
    ensures Substitute(s, columnMap) == s
  {
    if s != [] {
      assert '{' !in s[1..];
      SubstituteNoSplice(s[1..], columnMap);
    }
  }

  /** A splice `{name}` with a brace-free name is replaced by its resolution. */
  lemma {:induction false} SubstituteSplice(name: string, rest: string, columnMap: map<string, string>)
    requires BraceFree(name)
    ensures Substitute("{" + name + "}" + rest, columnMap) == Resolve(name, columnMap) + Substitute(rest, columnMap)
  {
    var s := "{" + name + "}" + rest;
    assert forall k | 1 <= k < |name| + 1 :: s[k] == name[k - 1];
    NextBraceSkips(s, 1, |name| + 1);
    assert s[|name| + 1] == '}';
    assert SpliceAt(s) == |name| + 1;
    assert s[1..|name| + 1] == name;
    assert s[|name| + 2..] == rest;
  }

  lemma {:induction false} NextBraceSkips(s: string, i: nat, j: nat)
    requires i <= j < |s|
    requires forall k | i <= k < j :: !IsBrace(s[k])
    requires IsBrace(s[j])
    ensures NextBrace(s, i) == j
    decreases j - i
  {
    if i < j {
      NextBraceSkips(s, i + 1, j);
    }
  }

  /** A brace in `a` that is still open at its end cannot close past a `{`. */
  lemma {:induction false} NextBraceAppend(a: string, b: string, i: nat)
    requires i <= |a|
    requires b == [] || b[0] == '{'
    ensures NextBrace(a + b, i) == NextBrace(a, i)
    decreases |a| - i
  {
    if i < |a| && !IsBrace(a[i]) {
      NextBraceAppend(a, b, i + 1);
    }
  }

  lemma SpliceAtAppend(a: string, b: string)
    requires a != []
    requires b == [] || b[0] == '{'
    ensures SpliceAt(a + b) == SpliceAt(a)
  {
    if a[0] == '{' {
      NextBraceAppend(a, b, 1);
    }
  }

  /** Substitution works piecewise across a cut made just before a `{`. */
  lemma {:induction false} SubstituteAppend(a: string, b: string, columnMap: map<string, string>)
    requires b == [] || b[0] == '{'
    ensures Substitute(a + b, columnMap) == Substitute(a, columnMap) + Substitute(b, columnMap)
    decreases |a|
  {
    if a == [] {
      assert a + b == b;
    } else {
      SpliceAtAppend(a, b);
      var j := SpliceAt(a);
      if j >= 0 {
        SubstituteAppend(a[j + 1..], b, columnMap);
        SpliceStep(a, b, columnMap);
      } else {
        SubstituteAppend(a[1..], b, columnMap);
        CopyStep(a, b, columnMap);
      }
    }
  }

  lemma SubstituteSpliceUnfold(s: string, j: int, columnMap: map<string, string>)
    requires s != [] && j == SpliceAt(s) && j >= 0
    ensures Substitute(s, columnMap) == Resolve(s[1..j], columnMap) + Substitute(s[j + 1..], columnMap)
  {
  }

  lemma SubstituteCopyUnfold(s: string, columnMap: map<string, string>)
    requires s != [] && SpliceAt(s) < 0
    ensures Substitute(s, columnMap) == [s[0]] + Substitute(s[1..], columnMap)
  {
  }

  lemma SpliceStep(a: string, b: string, columnMap: map<string, string>)
    requires a != [] && SpliceAt(a) >= 0 && SpliceAt(a + b) == SpliceAt(a)
    requires Substitute(a[SpliceAt(a) + 1..] + b, columnMap)
          == Substitute(a[SpliceAt(a) + 1..], columnMap) + Substitute(b, columnMap)
    ensures Substitute(a + b, columnMap) == Substitute(a, columnMap) + Substitute(b, columnMap)
  {
    var j := SpliceAt(a);
    var s := a + b;
    var name, restA, restB := a[1..j], Substitute(a[j + 1..], columnMap), Substitute(b, columnMap);
    assert s[1..j] == name;
    DropAppend(a, b, j + 1);
    SubstituteSpliceUnfold(s, j, columnMap);
    SubstituteSpliceUnfold(a, j, columnMap);
    AppendAssoc(Resolve(name, columnMap), restA, restB);
  }

  lemma CopyStep(a: string, b: string, columnMap: map<string, string>)
    requires a != [] && SpliceAt(a) < 0 && SpliceAt(a + b) == SpliceAt(a)
    requires Substitute(a[1..] + b, columnMap) == Substitute(a[1..], columnMap) + Substitute(b, columnMap)
    ensures Substitute(a + b, columnMap) == Substitute(a, columnMap) + Substitute(b, columnMap)
  {
    var s := a + b;
    DropAppend(a, b, 1);
    SubstituteCopyUnfold(s, columnMap);
    SubstituteCopyUnfold(a, columnMap);
    AppendAssoc([a[0]], Substitute(a[1..], columnMap), Substitute(b, columnMap));
  }

  /** A splice anywhere in a string: the text around it is substituted on its
      own and the splice becomes its resolution. */
  lemma {:induction false} SubstituteBetween(before: string, name: string, after: string, columnMap: map<string, string>)
    requires BraceFree(name)
    ensures Substitute(before + "{" + name + "}" + after, columnMap)
         == Substitute(before, columnMap) + Resolve(name, columnMap) + Substitute(after, columnMap)
  {
    var tail := "{" + name + "}" + after;
    assert before + "{" + name + "}" + after == before + tail;
    SubstituteAppend(before, tail, columnMap);
    SubstituteSplice(name, after, columnMap);
  }

  // ---------------------------------------------------------------------------
  // Empty parenthesis groups
  // ---------------------------------------------------------------------------

  /** The characters of `[,\s]`. */
  predicate IsSeparator(c: char) {
    c == ',' || IsWhitespace(c)
  }

  /** The characters the cleanup may delete. */
  predicate IsPunctuation(c: char) {
    IsSeparator(c) || c == '(' || c == ')'
  }

  /** The end of the run of `[,\s]` starting at `i`. */
  function SkipSeparators(s: string, i: nat): (j: nat)
    requires i <= |s|
    ensures i <= j <= |s|
    ensures forall k | i <= k < j :: IsSeparator(s[k])
    ensures j < |s| ==> !IsSeparator(s[j])
    decreases |s| - i
  {
    if i < |s| && IsSeparator(s[i]) then SkipSeparators(s, i + 1) else i
  }

  /** The end of the run of inner empty groups `\(\s*[,\s]*\)` starting at `i`. */
  function SkipInnerGroups(s: string, i: nat): (j: nat)
    requires i <= |s|
    ensures i <= j <= |s|
    ensures forall k | i <= k < j :: IsPunctuation(s[k])
    decreases |s| - i
  {
    if i < |s| && s[i] == '(' && SkipSeparators(s, i + 1) < |s| && s[SkipSeparators(s, i + 1)] == ')' then
      SkipInnerGroups(s, SkipSeparators(s, i + 1) + 1)
    else i
  }

  /** The end of the empty group the pattern matches at `i`, if it matches
      there: `(`, separators, inner empty groups, separators, `)`.  The
      separators are taken greedily; giving some back never lets the pattern
      match elsewhere, because neither `(` nor `)` is a separator. */
  function EmptyGroupAt(s: string, i: nat): (r: int)
    requires i <= |s|
    ensures r == -1 || i < r <= |s|
    ensures r > i ==> forall k | i <= k < r :: IsPunctuation(s[k])
  {
    if i < |s| && s[i] == '(' then
      var k := SkipSeparators(s, SkipInnerGroups(s, SkipSeparators(s, i + 1)));
      if k < |s| && s[k] == ')' then k + 1 else -1
    else -1
  }

  /** `parenthesesRegEx.test(s)`: the pattern matches somewhere.  (The
      expression is global, but the `replace` after each successful test and
      the failing final test both leave its `lastIndex` at 0, so every test
      searches the whole string.) */
  predicate HasEmptyGroup(s: string) {
    exists i | 0 <= i < |s| :: EmptyGroupAt(s, i) > i
  }

  /** `s.replace(parenthesesRegEx, '')` from position `i` on. */
  function RemoveEmptyGroupsFrom(s: string, i: nat): string
    requires i <= |s|
    decreases |s| - i
  {
    if i == |s| then []
    else if EmptyGroupAt(s, i) > i then RemoveEmptyGroupsFrom(s, EmptyGroupAt(s, i))
    else [s[i]] + RemoveEmptyGroupsFrom(s, i + 1)
  }

  /** One global replacement never lengthens the string, and shortens it when
      there is a match. */
  lemma {:induction false} RemoveShrinks(s: string, i: nat)
    requires i <= |s|
    ensures |RemoveEmptyGroupsFrom(s, i)| <= |s| - i
    ensures (exists k | i <= k < |s| :: EmptyGroupAt(s, k) > k) ==> |RemoveEmptyGroupsFrom(s, i)| < |s| - i
    decreases |s| - i
  {
    if i < |s| {
      var e := EmptyGroupAt(s, i);
      if e > i {
        RemoveShrinks(s, e);
      } else {
        RemoveShrinks(s, i + 1);
        if exists k | i <= k < |s| :: EmptyGroupAt(s, k) > k {
          var k :| i <= k < |s| && EmptyGroupAt(s, k) > k;
          assert k != i;
        }
      }
    }
  }

  /** Without a match the replacement changes nothing. */
  lemma {:induction false} RemoveNoMatch(s: string, i: nat)
    requires i <= |s|
    requires forall k | i <= k < |s| :: EmptyGroupAt(s, k) == -1
    ensures RemoveEmptyGroupsFrom(s, i) == s[i..]
    decreases |s| - i
  {
    if i < |s| {
      RemoveNoMatch(s, i + 1);
      assert s[i..] == [s[i]] + s[i + 1..];
    }
  }

  /** The `while (test) replace` loop: global replacements until the pattern
      no longer matches. */
  function RemoveEmptyGroups(s: string): (r: string)
    ensures !HasEmptyGroup(r)
    decreases |s|
  {
    if HasEmptyGroup(s) then
      RemoveShrinks(s, 0);
      RemoveEmptyGroups(RemoveEmptyGroupsFrom(s, 0))
    else s
  }

  /** Without a `(` there is nothing to remove. */
  lemma NoGroupUnchanged(s: string)
    requires '(' !in s
    ensures RemoveEmptyGroups(s) == s
  {
    assert !HasEmptyGroup(s);
  }

  // ---------------------------------------------------------------------------
  // Content: what the cleanup never touches
  // ---------------------------------------------------------------------------

  /** The characters other than parentheses, commas and white space, in order. */
  function Content(s: string): string {
    if s == [] then [] else (if IsPunctuation(s[0]) then [] else [s[0]]) + Content(s[1..])
  }

  lemma {:induction false} ContentAppend(a: string, b: string)
    ensures Content(a + b) == Content(a) + Content(b)
  {
    if a == [] {
      assert a + b == b;
    } else {
      assert (a + b)[1..] == a[1..] + b;
      ContentAppend(a[1..], b);
    }
  }

  lemma {:induction false} ContentPunctuation(s: string)
    requires forall k | 0 <= k < |s| :: IsPunctuation(s[k])
    ensures Content(s) == []
  {
    if s != [] {
      ContentPunctuation(s[1..]);
    }
  }

  /** Content of a slice made only of punctuation is empty, so dropping it
      keeps the content of the rest. */
  lemma ContentDropPunctuation(s: string, i: nat, j: nat)
    requires i <= j <= |s|
    requires forall k | i <= k < j :: IsPunctuation(s[k])
    ensures Content(s[i..]) == Content(s[j..])
  {
    assert s[i..] == s[i..j] + s[j..];
    ContentAppend(s[i..j], s[j..]);
    ContentPunctuation(s[i..j]);
  }

  lemma {:induction false} RemoveFromContent(s: string, i: nat)
    requires i <= |s|
    ensures Content(RemoveEmptyGroupsFrom(s, i)) == Content(s[i..])
    decreases |s| - i
  {
    if i < |s| {
      var e := EmptyGroupAt(s, i);
      if e > i {
        RemoveFromContent(s, e);
        ContentDropPunctuation(s, i, e);
      } else {
        RemoveFromContent(s, i + 1);
        assert s[i..] == [s[i]] + s[i + 1..];
        ContentAppend([s[i]], s[i + 1..]);
        ContentAppend([s[i]], RemoveEmptyGroupsFrom(s, i + 1));
      }
    }
  }

  /** Removing empty groups deletes only punctuation. */
  lemma {:induction false} RemoveEmptyGroupsContent(s: string)
    ensures Content(RemoveEmptyGroups(s)) == Content(s)
    decreases |s|
  {
    if HasEmptyGroup(s) {
      RemoveShrinks(s, 0);
      RemoveFromContent(s, 0);
      assert s[0..] == s;
      RemoveEmptyGroupsContent(RemoveEmptyGroupsFrom(s, 0));
    }
  }

  // ---------------------------------------------------------------------------
  // Comma runs
  // ---------------------------------------------------------------------------

  function SkipWhitespace(s: string, i: nat): (j: nat)
    requires i <= |s|
    ensures i <= j <= |s|
    ensures forall k | i <= k < j :: IsWhitespace(s[k])
    ensures j < |s| ==> !IsWhitespace(s[j])
    decreases |s| - i
  {
    if i < |s| && IsWhitespace(s[i]) then SkipWhitespace(s, i + 1) else i
  }

  function SkipCommas(s: string, i: nat): (j: nat)
    requires i <= |s|
    ensures i <= j <= |s|
    ensures forall k | i <= k < j :: s[k] == ','
    ensures j < |s| ==> s[j] != ','
    decreases |s| - i
  {
    if i < |s| && s[i] == ',' then SkipCommas(s, i + 1) else i
  }

  /** `s.replace(leadingCommaRegEx, '')`: a run of commas at the start, with
      the white space before and after it, is removed. */
  function StripLeading(s: string): (r: string)
  {
    var i := SkipWhitespace(s, 0);
    if i < |s| && s[i] == ',' then s[SkipWhitespace(s, SkipCommas(s, i))..] else s
  }

  /** The start of the trailing white space run ending at `j`. */
  function WhitespaceStart(s: string, j: nat): (i: nat)
    requires j <= |s|
    ensures i <= j
    ensures forall k | i <= k < j :: IsWhitespace(s[k])
    ensures i > 0 ==> !IsWhitespace(s[i - 1])
  {
    if j > 0 && IsWhitespace(s[j - 1]) then WhitespaceStart(s, j - 1) else j
  }

  /** The start of the comma run ending at `j`. */
  function CommaStart(s: string, j: nat): (i: nat)
    requires j <= |s|
    ensures i <= j
    ensures forall k | i <= k < j :: s[k] == ','
    ensures i > 0 ==> s[i - 1] != ','
  {
    if j > 0 && s[j - 1] == ',' then CommaStart(s, j - 1) else j
  }

  /** Where `trailingCommaRegEx` matches: the start of the longest suffix made
      of white space, a non-empty comma run and white space, or `|s|` when
      there is none.  The leftmost match is the longest such suffix. */
  function TrailingStart(s: string): (i: nat)
    ensures i <= |s|
  {
    var k := WhitespaceStart(s, |s|);
    if k > 0 && s[k - 1] == ',' then WhitespaceStart(s, CommaStart(s, k)) else |s|
  }

  /** `s.replace(trailingCommaRegEx, '')`. */
  function StripTrailing(s: string): (r: string)
  {
    s[..TrailingStart(s)]
  }

  /** `t` is white space up to `a`, commas up to `b`, then white space. */
  predicate CommaTailAt(t: string, a: nat, b: nat) {
    a < b <= |t|
    && (forall k | 0 <= k < a :: IsWhitespace(t[k]))
    && (forall k | a <= k < b :: t[k] == ',')
    && (forall k | b <= k < |t| :: IsWhitespace(t[k]))
  }

  /** What the comma-run patterns match: white space, commas, white space. */
  ghost predicate IsCommaTail(t: string) {
    exists a: nat, b: nat :: CommaTailAt(t, a, b)
  }

  lemma CommaTailContent(t: string)
    requires IsCommaTail(t)
    ensures Content(t) == []
  {
    var a: nat, b: nat :| CommaTailAt(t, a, b);
    forall k | 0 <= k < |t|
      ensures IsPunctuation(t[k])
    {
      if k < a {} else if k < b {} else {}
    }
    ContentPunctuation(t);
  }

  /** Only a comma tail is removed at the end. */
  lemma StripTrailingRemovesTail(s: string)
    requires TrailingStart(s) < |s|
    ensures IsCommaTail(s[TrailingStart(s)..])
  {
    var k := WhitespaceStart(s, |s|);
    var c := CommaStart(s, k);
    var i := WhitespaceStart(s, c);
    var t := s[i..];
    forall q | 0 <= q < c - i
      ensures IsWhitespace(t[q])
    {
      assert t[q] == s[i + q];
    }
    forall q | c - i <= q < k - i
      ensures t[q] == ','
    {
      assert t[q] == s[i + q];
    }
    forall q | k - i <= q < |t|
      ensures IsWhitespace(t[q])
    {
      assert t[q] == s[i + q];
    }
    assert CommaTailAt(t, c - i, k - i);
  }

  /** No longer tail exists: every suffix the pattern could match starts at or
      after the cut, so the cut is the leftmost match. */
  lemma StripTrailingLeftmost(s: string, p: nat)
    requires p < |s| && IsCommaTail(s[p..])
    ensures TrailingStart(s) <= p
  {
    var t := s[p..];
    var a: nat, b: nat :| CommaTailAt(t, a, b);
    assert forall q | 0 <= q < |t| :: t[q] == s[p + q];
    var k := WhitespaceStart(s, |s|);
    assert s[p + b - 1] == ',';
    assert k == p + b by {
      assert forall q | p + b <= q < |s| :: IsWhitespace(s[q]);
      WhitespaceStartBelow(s, |s|, p + b);
    }
    var c := CommaStart(s, k);
    assert c <= p + a by {
      assert forall q | p + a <= q < k :: s[q] == ',';
      CommaStartBelow(s, k, p + a);
    }
    if p < c {
      assert forall q | p <= q < c :: IsWhitespace(s[q]) by {
        forall q | p <= q < c
          ensures IsWhitespace(s[q])
        {
          assert t[q - p] == s[q];
        }
      }
      WhitespaceStartBelow(s, c, p);
    }
  }

  lemma {:induction false} WhitespaceStartBelow(s: string, j: nat, p: nat)
    requires p <= j <= |s|
    requires forall q | p <= q < j :: IsWhitespace(s[q])
    ensures WhitespaceStart(s, j) <= p
    decreases j
  {
    if j > p {
      WhitespaceStartBelow(s, j - 1, p);
    }
  }

  lemma {:induction false} CommaStartBelow(s: string, j: nat, p: nat)
    requires p <= j <= |s|
    requires forall q | p <= q < j :: s[q] == ','
    ensures CommaStart(s, j) <= p
    decreases j
  {
    if j > p {
      CommaStartBelow(s, j - 1, p);
    }
  }

  /** When something is removed at the end, what is kept does not end in
      white space; nothing is removed exactly when no comma tail ends the
      string. */
  lemma StripTrailingKept(s: string)
    ensures var r := StripTrailing(s); r != s ==> r == [] || !IsWhitespace(r[|r| - 1])
    ensures StripTrailing(s) == s <==> forall p | 0 <= p < |s| :: !IsCommaTail(s[p..])
  {
    if TrailingStart(s) < |s| {
      StripTrailingRemovesTail(s);
    } else {
      forall p | 0 <= p < |s|
        ensures !IsCommaTail(s[p..])
      {
        if IsCommaTail(s[p..]) {
          StripTrailingLeftmost(s, p);
        }
      }
    }
  }

  /** A comma tail at the start is found by the leading pattern. */
  lemma LeadingTailFound(s: string, e: nat)
    requires 0 < e <= |s|
    ensures IsCommaTail(s[..e]) ==> SkipWhitespace(s, 0) < |s| && s[SkipWhitespace(s, 0)] == ','
  {
    if IsCommaTail(s[..e]) {
      var t := s[..e];
      var a: nat, b: nat :| CommaTailAt(t, a, b);
      assert t[a] == s[a] == ',';
      forall q | 0 <= q < a
        ensures IsWhitespace(s[q])
      {
        assert t[q] == s[q];
      }
      WhitespaceRunEnd(s, 0, a);
    }
  }

  lemma {:induction false} WhitespaceRunEnd(s: string, i: nat, a: nat)
    requires i <= a < |s|
    requires forall q | i <= q < a :: IsWhitespace(s[q])
    requires !IsWhitespace(s[a])
    ensures SkipWhitespace(s, i) == a
    decreases a - i
  {
    if i < a {
      WhitespaceRunEnd(s, i + 1, a);
    }
  }

  /** The run removed at the start is white space, commas, white space, and
      what is left does not start with white space; nothing is removed when no
      prefix is such a run. */
  lemma StripLeadingFacts(s: string)
    ensures |StripLeading(s)| <= |s| && StripLeading(s) == s[|s| - |StripLeading(s)|..]
    ensures StripLeading(s) != s ==>
              (StripLeading(s) == [] || !IsWhitespace(StripLeading(s)[0]))
              && IsCommaTail(s[..|s| - |StripLeading(s)|])
    ensures StripLeading(s) == s <==> forall e | 0 < e <= |s| :: !IsCommaTail(s[..e])
  {
    var i := SkipWhitespace(s, 0);
    if i < |s| && s[i] == ',' {
      var j := SkipCommas(s, i);
      var e := SkipWhitespace(s, j);
      var t := s[..e];
      assert forall q | 0 <= q < |t| :: t[q] == s[q];
      assert CommaTailAt(t, i, j);
      assert |StripLeading(s)| < |s|;
    } else {
      forall e | 0 < e <= |s|
        ensures !IsCommaTail(s[..e])
      {
        LeadingTailFound(s, e);
      }
    }
  }

  lemma StripTrailingContent(s: string)
    ensures Content(StripTrailing(s)) == Content(s)
  {
    var i := TrailingStart(s);
    assert s == s[..i] + s[i..];
    ContentAppend(s[..i], s[i..]);
    if i < |s| {
      StripTrailingRemovesTail(s);
      CommaTailContent(s[i..]);
    } else {
      assert s[i..] == [];
    }
  }

  lemma StripLeadingContent(s: string)
    ensures Content(StripLeading(s)) == Content(s)
  {
    var i := SkipWhitespace(s, 0);
    if i < |s| && s[i] == ',' {
      var e := SkipWhitespace(s, SkipCommas(s, i));
      assert forall k | 0 <= k < e :: IsPunctuation(s[k]);
      assert s[0..] == s;
      ContentDropPunctuation(s, 0, e);
    }
  }

  /** `s.replace(internalCommaRegEx, ',')` from position `i` on: each comma,
      white space, comma is replaced by one comma, and the scan resumes after
      the second comma, so that `,,,` becomes `,,`. */
  function CollapseCommasFrom(s: string, i: nat): string
    requires i <= |s|
    decreases |s| - i
  {
    if i == |s| then []
    else if s[i] == ',' && SkipWhitespace(s, i + 1) < |s| && s[SkipWhitespace(s, i + 1)] == ',' then
      "," + CollapseCommasFrom(s, SkipWhitespace(s, i + 1) + 1)
    else [s[i]] + CollapseCommasFrom(s, i + 1)
  }

  function CollapseCommas(s: string): string {
    CollapseCommasFrom(s, 0)
  }

  lemma {:induction false} CollapseContent(s: string, i: nat)
    requires i <= |s|
    ensures Content(CollapseCommasFrom(s, i)) == Content(s[i..])
    decreases |s| - i
  {
    if i < |s| {
      var k := SkipWhitespace(s, i + 1);
      if s[i] == ',' && k < |s| && s[k] == ',' {
        CollapseContent(s, k + 1);
        CollapseRunStep(s, i, k);
      } else {
        CollapseContent(s, i + 1);
        CollapseCopyStep(s, i);
      }
    }
  }

  /** A run `,` whitespace `,` becomes one comma, and neither carries content. */
  lemma CollapseRunStep(s: string, i: nat, k: nat)
    requires i < |s| && s[i] == ','
    requires k == SkipWhitespace(s, i + 1) && k < |s| && s[k] == ','
    requires Content(CollapseCommasFrom(s, k + 1)) == Content(s[k + 1..])
    ensures Content(CollapseCommasFrom(s, i)) == Content(s[i..])
  {
    forall j | i <= j < k + 1
      ensures IsPunctuation(s[j])
    {
      if i < j < k {
        assert IsWhitespace(s[j]);
      }
    }
    ContentDropPunctuation(s, i, k + 1);
    ContentComma(CollapseCommasFrom(s, k + 1));
  }

  lemma ContentComma(rest: string)
    ensures Content("," + rest) == Content(rest)
  {
    assert ("," + rest)[1..] == rest;
  }

  /** Any other character is copied. */
  lemma CollapseCopyStep(s: string, i: nat)
    requires i < |s|
    requires !(s[i] == ',' && SkipWhitespace(s, i + 1) < |s| && s[SkipWhitespace(s, i + 1)] == ',')
    requires Content(CollapseCommasFrom(s, i + 1)) == Content(s[i + 1..])
    ensures Content(CollapseCommasFrom(s, i)) == Content(s[i..])
  {
    assert CollapseCommasFrom(s, i) == [s[i]] + CollapseCommasFrom(s, i + 1);
    assert s[i..] == [s[i]] + s[i + 1..];
    ContentAppend([s[i]], s[i + 1..]);
    ContentAppend([s[i]], CollapseCommasFrom(s, i + 1));
  }

  /** Without commas there is nothing to collapse. */
  lemma {:induction false} CollapseNoComma(s: string, i: nat)
    requires i <= |s|
    requires ',' !in s
    ensures CollapseCommasFrom(s, i) == s[i..]
    decreases |s| - i
  {
    if i < |s| {
      CollapseNoComma(s, i + 1);
      assert s[i..] == [s[i]] + s[i + 1..];
    }
  }

  /** A single pass: three commas in a row leave two. */
  lemma CollapseSinglePass()
    ensures CollapseCommas(",,,") == ",,"
  {
    var s := ",,,";
    assert SkipWhitespace(s, 1) == 1;
    assert SkipWhitespace(s, 3) == 3;
    assert CollapseCommasFrom(s, 3) == [];
    assert CollapseCommasFrom(s, 2) == ",";
  }

  // ---------------------------------------------------------------------------
  // The whole cleanup
  // ---------------------------------------------------------------------------

  /** `_spliceCleanup`: empty groups first, then the leading and the trailing
      comma runs, then doubled commas. */
  function Cleanup(spliced: string): string {
    CollapseCommas(StripTrailing(StripLeading(RemoveEmptyGroups(spliced))))
  }

  /** The cleanup deletes only parentheses, commas and white space: the text
      of every tag survives, in order. */
  lemma CleanupContent(spliced: string)
    ensures Content(Cleanup(spliced)) == Content(spliced)
  {
    var a := RemoveEmptyGroups(spliced);
    var b := StripLeading(a);
    var c := StripTrailing(b);
    RemoveEmptyGroupsContent(spliced);
    StripLeadingContent(a);
    StripTrailingContent(b);
    CollapseContent(c, 0);
    assert c[0..] == c;
  }

  /** `_replaceSplices`: substitution, then cleanup. */
  function ReplaceSplices(unspliced: string, columnMap: map<string, string>): string {
    Cleanup(Substitute(unspliced, columnMap))
  }
}
