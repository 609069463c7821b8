/** The JavaScript string built-ins that the HED validator relies on, written out
    over `seq<char>`: `trim` (with the ECMAScript white-space and line-terminator
    set, which is also the set of the regular-expression class `\s`),
    `toLowerCase`, `lastIndexOf`, `replace` with a one-character pattern (first
    occurrence only), `split` with a one-character separator, `join`, and the
    character count helper of the repository's string utilities. */
module JsStrings {

  /** ECMAScript WhiteSpace and LineTerminator code points. */
  predicate IsWhitespace(c: char) {
    c == '\t' || c == '\n' || c == '\U{000B}' || c == '\U{000C}' || c == '\r' || c == ' '
    || c == '\U{00A0}' || c == '\U{1680}' || ('\U{2000}' <= c <= '\U{200A}')
    || c == '\U{2028}' || c == '\U{2029}' || c == '\U{202F}' || c == '\U{205F}'
    || c == '\U{3000}' || c == '\U{FEFF}'
  }

  /** Every character is white space; `stringIsEmpty` and `!s.trim()` test this. */
  predicate IsBlank(s: string) {
    forall i | 0 <= i < |s| :: IsWhitespace(s[i])
  }

  /** Already trimmed: neither end is white space. */
  predicate IsTrimmed(s: string) {
    s == [] || (!IsWhitespace(s[0]) && !IsWhitespace(s[|s| - 1]))
  }

  function TrimStart(s: string): string {
    if s != [] && IsWhitespace(s[0]) then TrimStart(s[1..]) else s
  }

  function TrimEnd(s: string): string {
    if s != [] && IsWhitespace(s[|s| - 1]) then TrimEnd(s[..|s| - 1]) else s
  }

  /** `String.prototype.trim`: white space removed from both ends. The facts
      about it are lemmas, so that mentioning a trimmed string stays cheap. */
  function Trim(s: string): string {
    TrimEnd(TrimStart(s))
  }

  /** `TrimStart` drops a blank prefix and leaves a non-space first character. */
  lemma {:induction false} TrimStartFacts(s: string)
    ensures |TrimStart(s)| <= |s| && TrimStart(s) == s[|s| - |TrimStart(s)|..]
    ensures TrimStart(s) == [] || !IsWhitespace(TrimStart(s)[0])
    ensures IsBlank(s[..|s| - |TrimStart(s)|])
  {
    if s != [] && IsWhitespace(s[0]) {
      TrimStartFacts(s[1..]);
      var r := TrimStart(s);
      assert s[..|s| - |r|] == [s[0]] + s[1..][..|s| - 1 - |r|];
    }
  }

  /** `TrimEnd` drops a blank suffix and leaves a non-space last character. */
  lemma {:induction false} TrimEndFacts(s: string)
    ensures |TrimEnd(s)| <= |s| && TrimEnd(s) == s[..|TrimEnd(s)|]
    ensures TrimEnd(s) == [] || !IsWhitespace(TrimEnd(s)[|TrimEnd(s)| - 1])
    ensures IsBlank(s[|TrimEnd(s)|..])
  {
    if s != [] && IsWhitespace(s[|s| - 1]) {
      TrimEndFacts(s[..|s| - 1]);
      var r := TrimEnd(s);
      assert s[|r|..] == s[..|s| - 1][|r|..] + [s[|s| - 1]];
    }
  }

  /** The result of `Trim` is trimmed and no longer than its input. */
  lemma {:induction false} TrimFacts(s: string)
    ensures IsTrimmed(Trim(s)) && |Trim(s)| <= |s|
  {
    var a := TrimStart(s);
    TrimStartFacts(s);
    TrimEndFacts(a);
    var r := TrimEnd(a);
    if r != [] {
      assert r[0] == a[0];
    }
  }

  /** Trimming leaves nothing exactly when the string is blank. */
  lemma {:induction false} TrimBlank(s: string)
    ensures Trim(s) == [] <==> IsBlank(s)
  {
    var a := TrimStart(s);
    TrimStartFacts(s);
    TrimEndFacts(a);
    assert s[..|s|] == s;
    if a != [] {
      assert a[..|TrimEnd(a)|] == TrimEnd(a);
    }
  }

  /** The trimmed string is the infix of `s` between two blank ends. */
  lemma {:induction false} TrimInfix(s: string) returns (k: nat)
    ensures k + |Trim(s)| <= |s|
    ensures Trim(s) == s[k..k + |Trim(s)|]
    ensures IsBlank(s[..k]) && IsBlank(s[k + |Trim(s)|..])
  {
    var a := TrimStart(s);
    TrimStartFacts(s);
    TrimEndFacts(a);
    var r := TrimEnd(a);
    k := |s| - |a|;
    assert r == s[k..k + |r|];
    assert s[k + |r|..] == a[|r|..];
  }

  lemma {:induction false} TrimMembers(s: string, c: char)
    requires c in Trim(s)
    ensures c in s
  {
    var k := TrimInfix(s);
    var i :| 0 <= i < |Trim(s)| && Trim(s)[i] == c;
    assert s[k + i] == c;
  }

  lemma {:induction false} TrimOfTrimmed(s: string)
    requires IsTrimmed(s)
    ensures Trim(s) == s
  {
    assert TrimStart(s) == s;
  }

  /** The ASCII part of the case mapping of `toLowerCase`: only `A`-`Z`
      change. The other letters JavaScript lowercases are not mapped. */
  function LowerChar(c: char): (r: char)
    ensures 'A' <= c <= 'Z' ==> r as int == c as int + 32
    ensures !('A' <= c <= 'Z') ==> r == c
  {
    if 'A' <= c <= 'Z' then (c as int + 32) as char else c
  }

  function ToLower(s: string): (r: string)
    ensures |r| == |s|
  {
    if s == [] then [] else [LowerChar(s[0])] + ToLower(s[1..])
  }

  /** The ASCII case mapping works character by character. */
  lemma {:induction false} ToLowerAt(s: string)
    ensures forall i | 0 <= i < |s| :: ToLower(s)[i] == LowerChar(s[i])
  {
    if s != [] {
      ToLowerAt(s[1..]);
    }
  }

  lemma {:induction false} ToLowerIdempotent(s: string)
    ensures ToLower(ToLower(s)) == ToLower(s)
  {
    ToLowerAt(s);
    ToLowerAt(ToLower(s));
  }

  /** `s.indexOf(c)`, or -1 when `c` does not occur. */
  function IndexOf(s: string, c: char): (r: int)
    ensures -1 <= r < |s|
    ensures r >= 0 ==> s[r] == c
    ensures forall j | 0 <= j < |s| && (r < 0 || j < r) :: s[j] != c
  {
    if s == [] then -1
    else if s[0] == c then 0
    else var k := IndexOf(s[1..], c); if k < 0 then -1 else k + 1
  }

  /** `s.lastIndexOf(c)`, or -1 when `c` does not occur. */
  function LastIndexOf(s: string, c: char): (r: int)
    ensures -1 <= r < |s|
    ensures r >= 0 ==> s[r] == c
    ensures forall j | r < j < |s| :: s[j] != c
  {
    if s == [] then -1
    else if s[|s| - 1] == c then |s| - 1
    else LastIndexOf(s[..|s| - 1], c)
  }

  /** `s.replace(c, rep)` with a one-character string pattern: only the first
      occurrence of `c` is replaced. */
  function ReplaceFirst(s: string, c: char, rep: string): (r: string)
    ensures IndexOf(s, c) < 0 ==> r == s
    ensures IndexOf(s, c) >= 0 ==> r == s[..IndexOf(s, c)] + rep + s[IndexOf(s, c) + 1..]
  {
    var k := IndexOf(s, c);
    if k < 0 then s else s[..k] + rep + s[k + 1..]
  }

  /** `s.startsWith(p)`. */
  predicate StartsWith(s: string, p: string) {
    |p| <= |s| && s[..|p|] == p
  }

  /** `if (s.startsWith(c)) s = s.slice(1)`: one leading `c` removed, if any. */
  function DropPrefix(s: string, c: char): string
  {
    if s != [] && s[0] == c then s[1..] else s
  }

  /** `if (s.endsWith(c)) s = s.slice(0, -1)`: one trailing `c` removed, if any. */
  function DropSuffix(s: string, c: char): string
  {
    if s != [] && s[|s| - 1] == c then s[..|s| - 1] else s
  }

  /** The repository's `getCharacterCount(s, c)`. */
  function CountChar(s: string, c: char): (n: nat)
    ensures n <= |s|
  {
    if s == [] then 0 else CountChar(s[..|s| - 1], c) + (if s[|s| - 1] == c then 1 else 0)
  }

  lemma {:induction false} CountCharZero(s: string, c: char)
    ensures CountChar(s, c) == 0 <==> c !in s
  {
    if s != [] {
      CountCharZero(s[..|s| - 1], c);
      assert s == s[..|s| - 1] + [s[|s| - 1]];
    }
  }

  lemma CountCharAppend(a: string, b: string, c: char)
    ensures CountChar(a + b, c) == CountChar(a, c) + CountChar(b, c)
  {
    if b != [] {
      assert (a + b)[..|a + b| - 1] == a + b[..|b| - 1];
      CountCharAppend(a, b[..|b| - 1], c);
    } else {
      assert a + b == a;
    }
  }

  /** `s.split(c)` with a one-character separator. */
  function Split(s: string, c: char): (parts: seq<string>)
    ensures parts != []
    decreases |s|
  {
    var k := IndexOf(s, c);
    if k < 0 then [s] else [s[..k]] + Split(s[k + 1..], c)
  }

  /** One more part than separators. */
  lemma {:induction false} SplitCount(s: string, c: char)
    ensures |Split(s, c)| == CountChar(s, c) + 1
    decreases |s|
  {
    var k := IndexOf(s, c);
    if k < 0 {
      CountCharZero(s, c);
    } else {
      var rest := s[k + 1..];
      calc {
        |Split(s, c)|;
      ==
        1 + |Split(rest, c)|;
      == { SplitCount(rest, c); }
        CountChar(rest, c) + 2;
      == { CountAtFirst(s, c); }
        CountChar(s, c) + 1;
      }
    }
  }

  /** No part holds the separator. */
  lemma {:induction false} SplitParts(s: string, c: char)
    ensures forall i | 0 <= i < |Split(s, c)| :: c !in Split(s, c)[i]
    decreases |s|
  {
    var k := IndexOf(s, c);
    if k >= 0 {
      SplitParts(s[k + 1..], c);
      var parts := Split(s, c);
      assert parts == [s[..k]] + Split(s[k + 1..], c);
      forall i | 0 <= i < |parts|
        ensures c !in parts[i]
      {
        if i > 0 {
          assert parts[i] == Split(s[k + 1..], c)[i - 1];
        }
      }
    }
  }

  /** Joining the parts with the separator gives the string back. */
  lemma {:induction false} SplitJoin(s: string, c: char)
    ensures Join(Split(s, c), [c]) == s
    decreases |s|
  {
    var k := IndexOf(s, c);
    if k >= 0 {
      SplitJoin(s[k + 1..], c);
      JoinCons(s[..k], Split(s[k + 1..], c), [c]);
      assert s == s[..k] + [c] + s[k + 1..];
    }
  }

  lemma CountAtFirst(s: string, c: char)
    requires IndexOf(s, c) >= 0
    ensures CountChar(s, c) == CountChar(s[IndexOf(s, c) + 1..], c) + 1
  {
    var k := IndexOf(s, c);
    assert s == s[..k] + ([c] + s[k + 1..]);
    CountCharAppend(s[..k], [c] + s[k + 1..], c);
    CountCharAppend([c], s[k + 1..], c);
    assert c !in s[..k];
    CountCharZero(s[..k], c);
    assert [c][..0] == [];
  }

  lemma JoinCons(a: string, rest: seq<string>, sep: string)
    requires rest != []
    ensures Join([a] + rest, sep) == a + sep + Join(rest, sep)
  {
    assert ([a] + rest)[1..] == rest;
  }

  /** `parts.join(sep)`. */
  function Join(parts: seq<string>, sep: string): string {
    if parts == [] then ""
    else if |parts| == 1 then parts[0]
    else parts[0] + sep + Join(parts[1..], sep)
  }

  /** How many times `x` occurs in a list. */
  function Occurrences<T(==)>(list: seq<T>, x: T): nat {
    if list == [] then 0 else Occurrences(list[..|list| - 1], x) + (if list[|list| - 1] == x then 1 else 0)
  }

  lemma {:induction false} OccurrencesSnoc<T>(list: seq<T>, y: T, x: T)
    ensures Occurrences(list + [y], x) == Occurrences(list, x) + (if y == x then 1 else 0)
  {
    assert (list + [y])[..|list|] == list;
  }

  lemma {:induction false} OccurrencesAbsent<T>(list: seq<T>, x: T)
    requires x !in list
    ensures Occurrences(list, x) == 0
  {
    if list != [] {
      OccurrencesAbsent(list[..|list| - 1], x);
    }
  }

  lemma {:induction false} OccurrencesAppend<T>(a: seq<T>, b: seq<T>, x: T)
    ensures Occurrences(a + b, x) == Occurrences(a, x) + Occurrences(b, x)
  {
    if b != [] {
      assert (a + b)[..|a + b| - 1] == a + b[..|b| - 1];
      OccurrencesAppend(a, b[..|b| - 1], x);
    } else {
      assert a + b == a;
    }
  }

  /** The replacement-pattern expansion of `String.prototype.replace` for a
      string pattern (no capture groups): `$$` is one `$`, `$&` the matched
      text, `` $` `` the text before the match, `$'` the text after it; any
      other `$` stays as it is. */
  function ExpandReplacement(rep: string, matched: string, before: string, after: string): string
    decreases |rep|
  {
    if rep == [] then []
    else if rep[0] == '$' && |rep| >= 2 && rep[1] == '$' then "$" + ExpandReplacement(rep[2..], matched, before, after)
    else if rep[0] == '$' && |rep| >= 2 && rep[1] == '&' then matched + ExpandReplacement(rep[2..], matched, before, after)
    else if rep[0] == '$' && |rep| >= 2 && rep[1] == '`' then before + ExpandReplacement(rep[2..], matched, before, after)
    else if rep[0] == '$' && |rep| >= 2 && rep[1] == '\'' then after + ExpandReplacement(rep[2..], matched, before, after)
    else [rep[0]] + ExpandReplacement(rep[1..], matched, before, after)
  }

  /** A replacement without `$` is inserted literally. */
  lemma {:induction false} ExpandPlain(rep: string, matched: string, before: string, after: string)
    requires '$' !in rep
    ensures ExpandReplacement(rep, matched, before, after) == rep
  {
    if rep != [] {
      assert '$' !in rep[1..];
      ExpandPlain(rep[1..], matched, before, after);
    }
  }

  /** `$&` puts the matched text back. */
  lemma MatchedKept(matched: string, before: string, after: string)
    ensures ExpandReplacement("$&", matched, before, after) == matched
  {
    assert "$&"[2..] == [];
  }

  /** `s.replace(c, rep)` with a one-character string pattern: the first
      occurrence of `c` is replaced by `rep` after pattern expansion. */
  function ReplaceFirstExpanding(s: string, c: char, rep: string): (r: string)
    ensures IndexOf(s, c) < 0 ==> r == s
  {
    var k := IndexOf(s, c);
    if k < 0 then s else s[..k] + ExpandReplacement(rep, [c], s[..k], s[k + 1..]) + s[k + 1..]
  }

  /** Without `$` in the replacement, expansion changes nothing. */
  lemma {:induction false} ReplaceFirstPlain(s: string, c: char, rep: string)
    requires '$' !in rep
    ensures ReplaceFirstExpanding(s, c, rep) == ReplaceFirst(s, c, rep)
  {
    var k := IndexOf(s, c);
    if k >= 0 {
      ExpandPlain(rep, [c], s[..k], s[k + 1..]);
    }
  }

  // ---------------------------------------------------------------------------
  // Sequence facts the proofs share
  // ---------------------------------------------------------------------------

  lemma DropAppend<T>(a: seq<T>, b: seq<T>, n: nat)
    requires n <= |a|
    ensures (a + b)[n..] == a[n..] + b
  {
  }

  lemma AppendAssoc<T>(a: seq<T>, b: seq<T>, c: seq<T>)
    ensures a + (b + c) == (a + b) + c
  {
  }
}
