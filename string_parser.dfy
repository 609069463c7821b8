/** The character-level HED string splitter and tag sorter of
    validator/stringParser.js.

    The scanner of `splitHedString` is specified by `Scan`, a left-to-right fold
    of `Step` over the characters, and the method `SplitHedString` runs the
    source's loop and is proved to agree with it. The lemmas after `Scan` state
    what the scanner guarantees about the tags it cuts out. `Parse` builds the
    tag tree that `findTopLevelTags` and `findTagGroups` walk, and the classes
    `ParsedHedTag` and `ParsedHedString` carry the objects those functions push
    around; tag identity matters there, because `tags.includes` compares
    objects, not strings. */
module StringParser {
  import opened JsStrings

  // ---------------------------------------------------------------------------
  // Issues and the schema collaborator
  // ---------------------------------------------------------------------------

  datatype Issue =
    | InvalidCharacter(character: char, index: nat, hedString: string)
    | ConversionIssue(code: string)

  /** The schema collection as far as this file uses it: whether it is a HED-3
      collection, and the long-form converter of converter/converter.js, which
      returns the canonical tag and the codes of the issues it found. */
  datatype Schemas = Schemas(isHed3: bool, convertHedStringToLong: string -> (string, seq<string>))

  function CanonicalTag(schemas: Schemas, originalTag: string): string {
    if schemas.isHed3 then schemas.convertHedStringToLong(originalTag).0 else originalTag
  }

  function ConversionIssues(schemas: Schemas, originalTag: string): (r: seq<Issue>)
    ensures forall k | 0 <= k < |r| :: r[k].ConversionIssue?
    ensures !schemas.isHed3 ==> r == []
  {
    if schemas.isHed3 then
      var codes := schemas.convertHedStringToLong(originalTag).1;
      seq(|codes|, k requires 0 <= k < |codes| => ConversionIssue(codes[k]))
    else []
  }

  // ---------------------------------------------------------------------------
  // Lexical vocabulary
  // ---------------------------------------------------------------------------

  predicate IsInvalidCharacter(c: char) {
    c == '{' || c == '}' || c == '[' || c == ']' || c == '~'
  }

  /** Group depth after reading the first `n` characters of `s`: opening
      minus closing parentheses. */
  function Depth(s: string, n: nat): int
    requires n <= |s|
  {
    if n == 0 then 0
    else Depth(s, n - 1) + (if s[n - 1] == '(' then 1 else if s[n - 1] == ')' then -1 else 0)
  }

  /** The characters of `s[a..b]` with every double quote dropped: what the
      scanner accumulates for a tag read from index `a` up to `b`. */
  function Unquoted(s: string, a: nat, b: nat): string
    requires a <= b <= |s|
  {
    if a == b then [] else Unquoted(s, a, b - 1) + (if s[b - 1] == '"' then [] else [s[b - 1]])
  }

  /** Dropping quotes keeps exactly the other characters of the range. */
  lemma {:induction false} UnquotedMembers(s: string, a: nat, b: nat, c: char)
    requires a <= b <= |s|
    ensures c in Unquoted(s, a, b) <==> c != '"' && exists j | a <= j < b :: s[j] == c
    ensures |Unquoted(s, a, b)| <= b - a
  {
    if a < b {
      UnquotedMembers(s, a, b - 1, c);
    }
  }

  // ---------------------------------------------------------------------------
  // The scanner of splitHedString as a fold over the characters
  // ---------------------------------------------------------------------------

  /** A tag cut out of the string: its trimmed text and its `[start, end]` bounds. */
  datatype Span = Span(text: string, start: nat, end: nat)

  /** What the scanner records for the issue list, in order: an invalid
      character, or the place where an emitted tag's conversion issues go. */
  datatype Note = CharNote(character: char, index: nat) | TagNote(text: string)

  /** The loop variables of splitHedString, plus what it has pushed so far. */
  datatype Scanner = Scanner(depth: int, current: string, start: nat, reset: bool,
                             spans: seq<Span>, notes: seq<Note>)

  const InitialScanner := Scanner(0, "", 0, false, [], [])

  /** Push the current tag, trimmed, unless it is blank. The current tag is
      either empty or starts with a non-space character (`ScanInv`), so "blank"
      is "empty" here; `SplitHedString` tests blankness as the source does. */
  function Emit(st: Scanner, end: nat): Scanner {
    if st.current == [] then st
    else
      var t := Trim(st.current);
      st.(spans := st.spans + [Span(t, st.start, end)], notes := st.notes + [TagNote(t)])
  }

  /** One iteration of the loop, at index `i`: a pending reset moves the start
      of the tag to `i` first, then the character is processed. */
  function Step(s: string, st: Scanner, i: nat): Scanner
    requires i < |s|
  {
    Advance(s, Restart(st, i), i)
  }

  function Restart(st: Scanner, i: nat): Scanner {
    if st.reset then st.(start := i, reset := false) else st
  }

  function Advance(s: string, st: Scanner, i: nat): Scanner
    requires i < |s|
  {
    var c := s[i];
    if c == '"' then st
    else
      var depth := if c == '(' then st.depth + 1 else if c == ')' then st.depth - 1 else st.depth;
      var st2 := st.(depth := depth);
      if depth == 0 && c == ',' then
        Emit(st2, i).(current := "", reset := true)
      else if IsInvalidCharacter(c) then
        Emit(st2.(notes := st2.notes + [CharNote(c, i)]), i).(current := "", reset := true)
      else if st2.current == [] && IsWhitespace(c) then
        st2.(current := "", reset := true)
      else
        st2.(current := st2.current + [c])
  }

  /** The scanner after the first `n` characters. */
  function ScanTo(s: string, n: nat): Scanner
    requires n <= |s|
  {
    if n == 0 then InitialScanner else Step(s, ScanTo(s, n - 1), n - 1)
  }

  /** The whole scan, including the push of the last tag after the loop. */
  function Scan(s: string): Scanner {
    Emit(ScanTo(s, |s|), |s|)
  }

  /** The texts of the tags split from `s`, in order. */
  function SplitTexts(s: string): seq<string> {
    var spans := Scan(s).spans;
    seq(|spans|, k requires 0 <= k < |spans| => spans[k].text)
  }

  /** The issues of splitHedString: each invalid character in place, and each
      emitted tag's conversion issues right after it was cut. */
  function IssuesOf(schemas: Schemas, s: string, notes: seq<Note>): seq<Issue> {
    if notes == [] then []
    else
      IssuesOf(schemas, s, notes[..|notes| - 1]) +
      match notes[|notes| - 1]
      case CharNote(c, i) => [InvalidCharacter(c, i, s)]
      case TagNote(t) => ConversionIssues(schemas, t)
  }

  function SplitIssues(schemas: Schemas, s: string): seq<Issue> {
    IssuesOf(schemas, s, Scan(s).notes)
  }

  // ---------------------------------------------------------------------------
  // What the scanner guarantees
  // ---------------------------------------------------------------------------

  /** No character in `s[a..b]` ends a tag: no invalid character and no comma at depth 0. */
  predicate Clean(s: string, a: nat, b: nat)
    requires a <= b <= |s|
  {
    a == b || (Clean(s, a, b - 1) && !IsInvalidCharacter(s[b - 1]) && !(s[b - 1] == ',' && Depth(s, b) == 0))
  }

  /** Index `e` is where a tag may end: the end of the string, an invalid
      character, or a comma at depth 0. */
  predicate AtBoundary(s: string, e: nat)
    requires e <= |s|
  {
    e == |s| || IsInvalidCharacter(s[e]) || (s[e] == ',' && Depth(s, e + 1) == 0)
  }

  predicate SpanOk(s: string, sp: Span) {
    && sp.start <= sp.end <= |s|
    && sp.text != []
    && Clean(s, sp.start, sp.end)
    && AtBoundary(s, sp.end)
  }

  /** The text of a tag is its source slice without quotes, trimmed. */
  predicate TextOk(s: string, sp: Span) {
    sp.start <= sp.end <= |s| && sp.text == Trim(Unquoted(s, sp.start, sp.end))
  }

  /** The pushed tags are well formed, in order, and end by `limit`. */
  predicate SpansOk(s: string, spans: seq<Span>, limit: nat) {
    spans == [] ||
    var last := spans[|spans| - 1];
    && SpanOk(s, last) && TextOk(s, last) && last.end <= limit
    && SpansOk(s, spans[..|spans| - 1], last.start)
  }

  function TagTexts(notes: seq<Note>): seq<string> {
    if notes == [] then []
    else TagTexts(notes[..|notes| - 1]) + (if notes[|notes| - 1].TagNote? then [notes[|notes| - 1].text] else [])
  }

  function CharNotes(notes: seq<Note>): seq<Note> {
    if notes == [] then []
    else CharNotes(notes[..|notes| - 1]) + (if notes[|notes| - 1].CharNote? then [notes[|notes| - 1]] else [])
  }

  function SpanTexts(spans: seq<Span>): seq<string> {
    if spans == [] then [] else SpanTexts(spans[..|spans| - 1]) + [spans[|spans| - 1].text]
  }

  /** The invalid characters among the first `n` characters of `s`, in order. */
  function InvalidNotes(s: string, n: nat): seq<Note>
    requires n <= |s|
  {
    if n == 0 then []
    else InvalidNotes(s, n - 1) + (if IsInvalidCharacter(s[n - 1]) then [CharNote(s[n - 1], n - 1)] else [])
  }

  /** The loop variables that describe the tag being read. */
  predicate CurrentOk(s: string, n: nat, st: Scanner)
    requires n <= |s|
  {
    && st.start <= n
    && (st.reset ==> st.current == [])
    && (!st.reset ==> st.current == Unquoted(s, st.start, n) && Clean(s, st.start, n))
    && (st.current == [] || !IsWhitespace(st.current[0]))
  }

  /** No pushed tag ends after this index. */
  function Limit(n: nat, st: Scanner): nat {
    if st.reset then n else st.start
  }

  /** The invariant of the scan after `n` characters. */
  predicate ScanInv(s: string, n: nat, st: Scanner)
    requires n <= |s|
  {
    && st.depth == Depth(s, n)
    && CurrentOk(s, n, st)
    && SpansOk(s, st.spans, Limit(n, st))
    && TagTexts(st.notes) == SpanTexts(st.spans)
    && CharNotes(st.notes) == InvalidNotes(s, n)
  }

  lemma {:induction false} SpansOkWeaken(s: string, spans: seq<Span>, a: nat, b: nat)
    requires SpansOk(s, spans, a) && a <= b
    ensures SpansOk(s, spans, b)
  {
  }

  lemma {:induction false} SpansOkSnoc(s: string, spans: seq<Span>, sp: Span, limit: nat)
    requires SpansOk(s, spans, sp.start)
    requires SpanOk(s, sp) && TextOk(s, sp) && sp.end <= limit
    ensures SpansOk(s, spans + [sp], limit)
  {
    assert (spans + [sp])[..|spans|] == spans;
  }

  lemma {:induction false} CleanSnoc(s: string, a: nat, n: nat)
    requires a <= n < |s|
    requires Clean(s, a, n)
    requires !IsInvalidCharacter(s[n]) && !(s[n] == ',' && Depth(s, n + 1) == 0)
    ensures Clean(s, a, n + 1)
  {
  }

  lemma {:induction false} NotesSnoc(notes: seq<Note>, x: Note)
    ensures TagTexts(notes + [x]) == TagTexts(notes) + (if x.TagNote? then [x.text] else [])
    ensures CharNotes(notes + [x]) == CharNotes(notes) + (if x.CharNote? then [x] else [])
  {
    assert (notes + [x])[..|notes|] == notes;
  }

  /** What is known when a tag ends at index `n`; `extra` is the
      invalid-character note recorded just before. */
  predicate Cutting(s: string, n: nat, st: Scanner, extra: seq<Note>)
    requires n < |s|
  {
    && AtBoundary(s, n)
    && !st.reset && st.start <= n
    && st.current == Unquoted(s, st.start, n) && Clean(s, st.start, n)
    && (st.current == [] || !IsWhitespace(st.current[0]))
    && SpansOk(s, st.spans, st.start)
    && TagTexts(st.notes) == SpanTexts(st.spans)
    && (extra == [] || (|extra| == 1 && extra[0].CharNote?))
    && CharNotes(st.notes) + extra == InvalidNotes(s, n + 1)
    && st.depth == Depth(s, n + 1)
  }

  lemma {:induction false} ExtraNotes(notes: seq<Note>, extra: seq<Note>)
    requires extra == [] || (|extra| == 1 && extra[0].CharNote?)
    ensures TagTexts(notes + extra) == TagTexts(notes)
    ensures CharNotes(notes + extra) == CharNotes(notes) + extra
  {
    if extra != [] {
      assert notes + extra == notes + [extra[0]];
      NotesSnoc(notes, extra[0]);
    } else {
      assert notes + extra == notes;
    }
  }

  /** A blank tag is not pushed. */
  lemma {:induction false} CutEmptyKeeps(s: string, n: nat, st: Scanner, extra: seq<Note>)
    requires n < |s| && Cutting(s, n, st, extra) && st.current == []
    ensures ScanInv(s, n + 1, st.(notes := st.notes + extra, current := "", reset := true))
  {
    ExtraNotes(st.notes, extra);
    SpansOkWeaken(s, st.spans, st.start, n + 1);
  }

  /** The tag cut at a boundary is a well-formed span. */
  lemma {:induction false} PushedSpanOk(s: string, n: nat, start: nat, current: string)
    requires n < |s| && AtBoundary(s, n) && start <= n
    requires current == Unquoted(s, start, n) && Clean(s, start, n)
    requires current != [] && !IsWhitespace(current[0])
    ensures SpanOk(s, Span(Trim(current), start, n)) && TextOk(s, Span(Trim(current), start, n))
  {
    TrimBlank(current);
  }

  /** A non-blank tag is pushed, trimmed, with bounds `[start, n]`. */
  lemma {:induction false} CutPushKeeps(s: string, n: nat, st: Scanner, extra: seq<Note>)
    requires n < |s| && Cutting(s, n, st, extra) && st.current != []
    ensures ScanInv(s, n + 1, st.(spans := st.spans + [Span(Trim(st.current), st.start, n)],
                                  notes := st.notes + extra + [TagNote(Trim(st.current))],
                                  current := "", reset := true))
  {
    var t := Trim(st.current);
    var sp := Span(t, st.start, n);
    PushedSpanOk(s, n, st.start, st.current);
    SpansOkSnoc(s, st.spans, sp, n + 1);
    ExtraNotes(st.notes, extra);
    NotesSnoc(st.notes + extra, TagNote(t));
    assert (st.spans + [sp])[..|st.spans|] == st.spans;
  }

  /** The facts about a scanner that is reading a tag, at index `n`. */
  predicate Reading(s: string, n: nat, st: Scanner)
    requires n < |s|
  {
    && !st.reset && st.start <= n
    && st.current == Unquoted(s, st.start, n) && Clean(s, st.start, n)
    && (st.current == [] || !IsWhitespace(st.current[0]))
    && SpansOk(s, st.spans, st.start)
    && TagTexts(st.notes) == SpanTexts(st.spans)
  }

  /** A scanner ready to read index `n`. */
  predicate Ready(s: string, n: nat, st: Scanner)
    requires n < |s|
  {
    Reading(s, n, st) && CharNotes(st.notes) == InvalidNotes(s, n) && st.depth == Depth(s, n)
  }

  function DepthAfter(s: string, st: Scanner, n: nat): int
    requires n < |s|
  {
    if s[n] == '(' then st.depth + 1 else if s[n] == ')' then st.depth - 1 else st.depth
  }

  /** A quote is skipped. */
  lemma {:induction false} QuoteKeeps(s: string, n: nat, st: Scanner)
    requires n < |s| && Ready(s, n, st) && s[n] == '"'
    ensures ScanInv(s, n + 1, Advance(s, st, n))
  {
    CleanSnoc(s, st.start, n);
    SpansOkWeaken(s, st.spans, st.start, n + 1);
  }

  function CutNotes(s: string, n: nat): seq<Note>
    requires n < |s|
  {
    if IsInvalidCharacter(s[n]) then [CharNote(s[n], n)] else []
  }

  lemma {:induction false} AdvanceCut(s: string, n: nat, st: Scanner)
    requires n < |s| && s[n] != '"' && ((s[n] == ',' && DepthAfter(s, st, n) == 0) || IsInvalidCharacter(s[n]))
    ensures st.current == [] ==> (Advance(s, st, n) ==
      st.(depth := DepthAfter(s, st, n), notes := st.notes + CutNotes(s, n), current := "", reset := true))
    ensures st.current != [] ==> (Advance(s, st, n) ==
      st.(depth := DepthAfter(s, st, n),
          spans := st.spans + [Span(Trim(st.current), st.start, n)],
          notes := st.notes + CutNotes(s, n) + [TagNote(Trim(st.current))],
          current := "", reset := true))
  {
    if !IsInvalidCharacter(s[n]) {
      assert st.notes + CutNotes(s, n) == st.notes;
    }
  }

  /** A comma at depth 0 or an invalid character ends the tag. */
  lemma {:induction false} CutStepKeeps(s: string, n: nat, st: Scanner)
    requires n < |s| && Ready(s, n, st) && s[n] != '"'
    requires (s[n] == ',' && DepthAfter(s, st, n) == 0) || IsInvalidCharacter(s[n])
    ensures ScanInv(s, n + 1, Advance(s, st, n))
  {
    var extra := CutNotes(s, n);
    assert InvalidNotes(s, n + 1) == InvalidNotes(s, n) + extra;
    var st2 := st.(depth := DepthAfter(s, st, n));
    assert Cutting(s, n, st2, extra);
    AdvanceCut(s, n, st);
    if st.current == [] {
      CutEmptyKeeps(s, n, st2, extra);
    } else {
      CutPushKeeps(s, n, st2, extra);
    }
  }

  lemma {:induction false} AdvanceBlank(s: string, n: nat, st: Scanner)
    requires n < |s| && st.current == [] && IsWhitespace(s[n])
    ensures Advance(s, st, n) == st.(current := "", reset := true)
  {
  }

  lemma {:induction false} BlankKeepsAt(s: string, n: nat, st: Scanner)
    requires n < |s| && Ready(s, n, st) && st.current == [] && IsWhitespace(s[n])
    ensures ScanInv(s, n + 1, st.(current := "", reset := true))
  {
    WhitespaceIsPlain(s[n]);
    assert InvalidNotes(s, n + 1) == InvalidNotes(s, n);
    SpansOkWeaken(s, st.spans, st.start, n + 1);
  }

  /** White space is neither an invalid character nor a parenthesis. */
  lemma {:induction false} WhitespaceIsPlain(c: char)
    requires IsWhitespace(c)
    ensures !IsInvalidCharacter(c) && c != '(' && c != ')'
  {
  }

  /** White space before any tag character resets the start of the tag. */
  lemma {:induction false} BlankKeeps(s: string, n: nat, st: Scanner)
    requires n < |s| && Ready(s, n, st) && st.current == [] && IsWhitespace(s[n])
    ensures ScanInv(s, n + 1, Advance(s, st, n))
  {
    BlankKeepsAt(s, n, st);
    AdvanceBlank(s, n, st);
  }

  lemma {:induction false} AdvanceAppend(s: string, n: nat, st: Scanner)
    requires n < |s| && s[n] != '"' && !(st.current == [] && IsWhitespace(s[n]))
    requires !IsInvalidCharacter(s[n]) && !(s[n] == ',' && DepthAfter(s, st, n) == 0)
    ensures Advance(s, st, n) == st.(depth := DepthAfter(s, st, n), current := st.current + [s[n]])
  {
  }

  lemma {:induction false} AppendKeepsAt(s: string, n: nat, st: Scanner)
    requires n < |s| && Ready(s, n, st) && s[n] != '"' && !(st.current == [] && IsWhitespace(s[n]))
    requires !IsInvalidCharacter(s[n]) && !(s[n] == ',' && DepthAfter(s, st, n) == 0)
    ensures ScanInv(s, n + 1, st.(depth := DepthAfter(s, st, n), current := st.current + [s[n]]))
  {
    assert InvalidNotes(s, n + 1) == InvalidNotes(s, n);
    CleanSnoc(s, st.start, n);
  }

  /** Any other character that does not end the tag is appended to it. */
  lemma {:induction false} AppendKeeps(s: string, n: nat, st: Scanner)
    requires n < |s| && Ready(s, n, st) && s[n] != '"' && !(st.current == [] && IsWhitespace(s[n]))
    requires !IsInvalidCharacter(s[n]) && !(s[n] == ',' && DepthAfter(s, st, n) == 0)
    ensures ScanInv(s, n + 1, Advance(s, st, n))
  {
    AppendKeepsAt(s, n, st);
    AdvanceAppend(s, n, st);
  }

  /** A pending reset moves the start of the tag to the current index. */
  lemma {:induction false} RestartReady(s: string, n: nat, st: Scanner)
    requires n < |s| && ScanInv(s, n, st)
    ensures Ready(s, n, Restart(st, n))
  {
  }

  lemma {:induction false} ScanToNext(s: string, n: nat)
    requires n < |s|
    ensures ScanTo(s, n + 1) == Advance(s, Restart(ScanTo(s, n), n), n)
  {
  }

  /** One iteration keeps the invariant. */
  lemma {:induction false} StepKeeps(s: string, n: nat)
    requires n < |s| && ScanInv(s, n, ScanTo(s, n))
    ensures ScanInv(s, n + 1, ScanTo(s, n + 1))
  {
    var st1 := Restart(ScanTo(s, n), n);
    RestartReady(s, n, ScanTo(s, n));
    ScanToNext(s, n);
    var c := s[n];
    if c == '"' {
      QuoteKeeps(s, n, st1);
    } else if (c == ',' && DepthAfter(s, st1, n) == 0) || IsInvalidCharacter(c) {
      CutStepKeeps(s, n, st1);
    } else if st1.current == [] && IsWhitespace(c) {
      BlankKeeps(s, n, st1);
    } else {
      AppendKeeps(s, n, st1);
    }
  }

  lemma {:induction false} ScanToInv(s: string, n: nat)
    requires n <= |s|
    ensures ScanInv(s, n, ScanTo(s, n))
  {
    var k := 0;
    while k < n
      invariant k <= n && ScanInv(s, k, ScanTo(s, k))
    {
      StepKeeps(s, k);
      k := k + 1;
    }
  }

  /** Everything the whole scan guarantees, in one place. */
  lemma {:induction false} ScanSound(s: string)
    ensures SpansOk(s, Scan(s).spans, |s|)
    ensures TagTexts(Scan(s).notes) == SpanTexts(Scan(s).spans)
    ensures CharNotes(Scan(s).notes) == InvalidNotes(s, |s|)
    ensures Scan(s).depth == Depth(s, |s|)
  {
    var st := ScanTo(s, |s|);
    ScanToInv(s, |s|);
    assert s[..|s|] == s;
    if st.reset {
      assert Scan(s) == st;
    } else if st.current == [] {
      SpansOkWeaken(s, st.spans, st.start, |s|);
    } else {
      var t := Trim(st.current);
      var sp := Span(t, st.start, |s|);
      TrimBlank(st.current);
      assert SpanOk(s, sp) && TextOk(s, sp);
      SpansOkSnoc(s, st.spans, sp, |s|);
        NotesSnoc(st.notes, TagNote(t));
      assert (st.spans + [sp])[..|st.spans|] == st.spans;
    }
  }

  /** The recursive `SpansOk` read as statements about every tag. */
  lemma {:induction false} SpansOkAll(s: string, spans: seq<Span>, limit: nat)
    requires SpansOk(s, spans, limit)
    ensures forall k | 0 <= k < |spans| :: SpanOk(s, spans[k]) && TextOk(s, spans[k]) && spans[k].end <= limit
    ensures forall j, k | 0 <= j < k < |spans| :: spans[j].end <= spans[k].start
  {
    if spans != [] {
      var init := spans[..|spans| - 1];
      SpansOkAll(s, init, spans[|spans| - 1].start);
      assert forall k | 0 <= k < |init| :: spans[k] == init[k];
    }
  }

  /** The recursive `Clean` read as a statement about every index. */
  lemma {:induction false} CleanAll(s: string, a: nat, b: nat)
    requires a <= b <= |s| && Clean(s, a, b)
    ensures forall j | a <= j < b :: !IsInvalidCharacter(s[j]) && !(s[j] == ',' && Depth(s, j + 1) == 0)
  {
    if a < b {
      CleanAll(s, a, b - 1);
    }
  }

  lemma CleanAt(s: string, a: nat, b: nat, j: nat)
    requires a <= j < b <= |s| && Clean(s, a, b)
    ensures !IsInvalidCharacter(s[j]) && !(s[j] == ',' && Depth(s, j + 1) == 0)
  {
    CleanAll(s, a, b);
  }

  // ---------------------------------------------------------------------------
  // Consequences: what splitHedString promises about its tags and issues
  // ---------------------------------------------------------------------------

  lemma {:induction false} SpanTextsIndex(spans: seq<Span>)
    ensures |SpanTexts(spans)| == |spans|
    ensures forall k | 0 <= k < |spans| :: SpanTexts(spans)[k] == spans[k].text
  {
    if spans != [] {
      SpanTextsIndex(spans[..|spans| - 1]);
    }
  }

  /** What `SpansOk` gives about the text of every tag. */
  lemma {:induction false} SpanTextsClean(s: string, spans: seq<Span>, limit: nat)
    requires SpansOk(s, spans, limit)
    ensures forall k | 0 <= k < |spans| :: IsTrimmed(spans[k].text) && |spans[k].text| <= |s|
    ensures forall k, i | 0 <= k < |spans| && 0 <= i < |spans[k].text| ::
      spans[k].text[i] != '"' && !IsInvalidCharacter(spans[k].text[i])
  {
    SpansOkAll(s, spans, limit);
    forall k | 0 <= k < |spans|
      ensures IsTrimmed(spans[k].text) && |spans[k].text| <= |s|
    {
      UnquotedMembers(s, spans[k].start, spans[k].end, ' ');
      TrimFacts(Unquoted(s, spans[k].start, spans[k].end));
    }
    forall k, i | 0 <= k < |spans| && 0 <= i < |spans[k].text|
      ensures spans[k].text[i] != '"' && !IsInvalidCharacter(spans[k].text[i])
    {
      SpanCharClean(s, spans[k], spans[k].text[i]);
    }
  }

  lemma {:induction false} SpanCharClean(s: string, sp: Span, c: char)
    requires SpanOk(s, sp) && TextOk(s, sp) && c in sp.text
    ensures c != '"' && !IsInvalidCharacter(c)
  {
    TrimMembers(Unquoted(s, sp.start, sp.end), c);
    UnquotedMembers(s, sp.start, sp.end, c);
    CleanAll(s, sp.start, sp.end);
    var j :| sp.start <= j < sp.end && s[j] == c;
    assert !IsInvalidCharacter(s[j]);
  }

  /** What `SpansOk` gives about the source range of every tag. */
  lemma {:induction false} SpanRangesClean(s: string, spans: seq<Span>, limit: nat)
    requires SpansOk(s, spans, limit)
    ensures forall k, j | 0 <= k < |spans| && spans[k].start <= j < spans[k].end ::
      j < |s| && !IsInvalidCharacter(s[j]) && !(s[j] == ',' && Depth(s, j + 1) == 0)
  {
    SpansOkAll(s, spans, limit);
    forall k | 0 <= k < |spans|
      ensures forall j | spans[k].start <= j < spans[k].end ::
        j < |s| && !IsInvalidCharacter(s[j]) && !(s[j] == ',' && Depth(s, j + 1) == 0)
    {
      CleanAll(s, spans[k].start, spans[k].end);
    }
  }

  /** Every tag split from `s` is non-empty, trimmed, no longer than `s`, and is
      the trimmed, quote-free text of its bounds `start <= end <= |s|`; the tags
      come out in source order, and each one ends at the end of the string, at
      an invalid character, or at a comma at depth 0. */
  lemma {:induction false} SplitTagsWellFormed(s: string)
    ensures forall k | 0 <= k < |Scan(s).spans| ::
      && Scan(s).spans[k].start <= Scan(s).spans[k].end <= |s|
      && Scan(s).spans[k].text != [] && IsTrimmed(Scan(s).spans[k].text)
      && |Scan(s).spans[k].text| <= |s|
      && Scan(s).spans[k].text == Trim(Unquoted(s, Scan(s).spans[k].start, Scan(s).spans[k].end))
      && AtBoundary(s, Scan(s).spans[k].end)
    ensures forall j, k | 0 <= j < k < |Scan(s).spans| :: Scan(s).spans[j].end <= Scan(s).spans[k].start
  {
    ScanSound(s);
    SpansOkAll(s, Scan(s).spans, |s|);
    SpanTextsClean(s, Scan(s).spans, |s|);
  }

  /** The texts of the split tags are never longer than the string. */
  lemma {:induction false} SplitTextsShorter(s: string)
    ensures forall k | 0 <= k < |SplitTexts(s)| :: |SplitTexts(s)[k]| <= |s|
  {
    ScanSound(s);
    SpanTextsClean(s, Scan(s).spans, |s|);
  }

  /** No split tag holds a double quote or an invalid character. */
  lemma {:induction false} SplitTagsHaveNoQuotes(s: string)
    ensures forall k, i | 0 <= k < |Scan(s).spans| && 0 <= i < |Scan(s).spans[k].text| ::
      Scan(s).spans[k].text[i] != '"' && !IsInvalidCharacter(Scan(s).spans[k].text[i])
  {
    ScanSound(s);
    SpanTextsClean(s, Scan(s).spans, |s|);
  }

  /** A tag never spans a comma at depth 0 or an invalid character: those are
      the only cuts, while parentheses and nested commas stay in the tag, so a
      whole parenthesised group is one tag. */
  lemma {:induction false} SplitCutsOnlyAtBoundaries(s: string)
    ensures forall k, j | 0 <= k < |Scan(s).spans| && Scan(s).spans[k].start <= j < Scan(s).spans[k].end ::
      j < |s| && !IsInvalidCharacter(s[j]) && !(s[j] == ',' && Depth(s, j + 1) == 0)
  {
    ScanSound(s);
    SpanRangesClean(s, Scan(s).spans, |s|);
  }

  /** The invalid characters are recorded once each, in order, with their index. */
  lemma {:induction false} InvalidNotesExact(s: string, n: nat)
    requires n <= |s|
    ensures forall k | 0 <= k < |InvalidNotes(s, n)| ::
      && InvalidNotes(s, n)[k].CharNote?
      && InvalidNotes(s, n)[k].index < n
      && InvalidNotes(s, n)[k].character == s[InvalidNotes(s, n)[k].index]
      && IsInvalidCharacter(InvalidNotes(s, n)[k].character)
    ensures forall j, k | 0 <= j < k < |InvalidNotes(s, n)| ::
      InvalidNotes(s, n)[j].index < InvalidNotes(s, n)[k].index
    ensures forall i | 0 <= i < n && IsInvalidCharacter(s[i]) :: CharNote(s[i], i) in InvalidNotes(s, n)
  {
    InvalidNotesSound(s, n);
    InvalidNotesOrdered(s, n);
    InvalidNotesComplete(s, n);
  }

  /** Every note is an invalid character of the prefix, at its index. */
  lemma {:induction false} InvalidNotesSound(s: string, n: nat)
    requires n <= |s|
    ensures forall k | 0 <= k < |InvalidNotes(s, n)| ::
      && InvalidNotes(s, n)[k].CharNote?
      && InvalidNotes(s, n)[k].index < n
      && InvalidNotes(s, n)[k].character == s[InvalidNotes(s, n)[k].index]
      && IsInvalidCharacter(InvalidNotes(s, n)[k].character)
  {
    if n > 0 {
      InvalidNotesSound(s, n - 1);
      var prev := InvalidNotes(s, n - 1);
      var cur := InvalidNotes(s, n);
      assert cur[..|prev|] == prev;
      forall k | 0 <= k < |cur|
        ensures cur[k].CharNote? && cur[k].index < n && cur[k].character == s[cur[k].index]
        ensures IsInvalidCharacter(cur[k].character)
      {
        if k < |prev| {
          assert cur[k] == prev[k];
        }
      }
    }
  }

  /** The notes come in increasing order of index. */
  lemma {:induction false} InvalidNotesOrdered(s: string, n: nat)
    requires n <= |s|
    ensures forall j, k | 0 <= j < k < |InvalidNotes(s, n)| ::
      InvalidNotes(s, n)[j].CharNote? && InvalidNotes(s, n)[k].CharNote? &&
      InvalidNotes(s, n)[j].index < InvalidNotes(s, n)[k].index
  {
    if n > 0 {
      InvalidNotesOrdered(s, n - 1);
      InvalidNotesSound(s, n - 1);
      var prev := InvalidNotes(s, n - 1);
      var cur := InvalidNotes(s, n);
      assert cur[..|prev|] == prev;
      forall j, k | 0 <= j < k < |cur|
        ensures cur[j].index < cur[k].index
      {
        assert cur[j] == prev[j];
        if k < |prev| {
          assert cur[k] == prev[k];
        }
      }
    }
  }

  /** Every invalid character of the prefix has its note. */
  lemma {:induction false} InvalidNotesComplete(s: string, n: nat)
    requires n <= |s|
    ensures forall i | 0 <= i < n && IsInvalidCharacter(s[i]) :: CharNote(s[i], i) in InvalidNotes(s, n)
  {
    if n > 0 {
      InvalidNotesComplete(s, n - 1);
      var prev := InvalidNotes(s, n - 1);
      var cur := InvalidNotes(s, n);
      assert cur[..|prev|] == prev;
      forall i | 0 <= i < n && IsInvalidCharacter(s[i])
        ensures CharNote(s[i], i) in cur
      {
        if i < n - 1 {
          var k :| 0 <= k < |prev| && prev[k] == CharNote(s[i], i);
          assert cur[k] == prev[k];
        } else {
          assert cur[|cur| - 1] == CharNote(s[i], i);
        }
      }
    }
  }

  /** The invalid-character issues of a list, in order. */
  function CharIssues(issues: seq<Issue>): seq<Issue> {
    if issues == [] then []
    else CharIssues(issues[..|issues| - 1]) + (if issues[|issues| - 1].InvalidCharacter? then [issues[|issues| - 1]] else [])
  }

  lemma {:induction false} CharIssuesAppend(a: seq<Issue>, b: seq<Issue>)
    ensures CharIssues(a + b) == CharIssues(a) + CharIssues(b)
  {
    if b == [] {
      assert a + b == a;
    } else {
      CharIssuesAppend(a, b[..|b| - 1]);
      assert (a + b)[..|a + b| - 1] == a + b[..|b| - 1];
    }
  }

  lemma {:induction false} CharIssuesNone(r: seq<Issue>)
    requires forall k | 0 <= k < |r| :: r[k].ConversionIssue?
    ensures CharIssues(r) == []
  {
    if r != [] {
      CharIssuesNone(r[..|r| - 1]);
    }
  }

  lemma {:induction false} CharIssuesAll(r: seq<Issue>)
    requires forall k | 0 <= k < |r| :: r[k].InvalidCharacter?
    ensures CharIssues(r) == r
  {
    if r != [] {
      CharIssuesAll(r[..|r| - 1]);
    }
  }

  /** Among the issues of some notes, the invalid-character ones are exactly
      those of the character notes. */
  lemma {:induction false} CharIssuesOfNotes(schemas: Schemas, s: string, notes: seq<Note>)
    ensures CharIssues(IssuesOf(schemas, s, notes)) == IssuesOf(schemas, s, CharNotes(notes))
  {
    if notes != [] {
      var init := notes[..|notes| - 1];
      var x := notes[|notes| - 1];
      CharIssuesOfNotes(schemas, s, init);
      var tail := match x
        case CharNote(c, i) => [InvalidCharacter(c, i, s)]
        case TagNote(t) => ConversionIssues(schemas, t);
      assert IssuesOf(schemas, s, notes) == IssuesOf(schemas, s, init) + tail;
      CharIssuesAppend(IssuesOf(schemas, s, init), tail);
      if x.TagNote? {
        CharIssuesNone(tail);
        assert CharNotes(notes) == CharNotes(init);
      } else {
        var cn := CharNotes(notes);
        assert cn == CharNotes(init) + [x];
        assert cn[..|cn| - 1] == CharNotes(init);
        CharIssuesAll(tail);
      }
    }
  }

  /** Character notes give the same issues whatever the schemas. */
  lemma {:induction false} IssuesOfCharNotesOnly(schemas: Schemas, other: Schemas, s: string, notes: seq<Note>)
    requires forall k | 0 <= k < |notes| :: notes[k].CharNote?
    ensures IssuesOf(schemas, s, notes) == IssuesOf(other, s, notes)
  {
    if notes != [] {
      IssuesOfCharNotesOnly(schemas, other, s, notes[..|notes| - 1]);
    }
  }

  /** Without a HED-3 schema, tag notes contribute no issue. */
  lemma {:induction false} NoConversionIssues(schemas: Schemas, s: string, notes: seq<Note>)
    requires !schemas.isHed3
    ensures IssuesOf(schemas, s, notes) == IssuesOf(schemas, s, CharNotes(notes))
  {
    if notes != [] {
      var init := notes[..|notes| - 1];
      var x := notes[|notes| - 1];
      NoConversionIssues(schemas, s, init);
      var cn := CharNotes(notes);
      if x.CharNote? {
        assert cn == CharNotes(init) + [x];
        assert cn[..|cn| - 1] == CharNotes(init);
      } else {
        assert cn == CharNotes(init);
      }
    }
  }

  /** The schema collection with no HED-3 schema. */
  const NoSchemas := Schemas(false, t => (t, []))

  /** The issues of the invalid characters of `s`, in order. */
  function InvalidCharacterIssues(s: string): seq<Issue> {
    IssuesOf(NoSchemas, s, InvalidNotes(s, |s|))
  }

  /** Each occurrence of an invalid character, at any depth, yields exactly one
      invalid-character issue carrying its index, in order; every other issue of
      the split is a conversion issue. */
  lemma {:induction false} SplitReportsInvalidCharacters(schemas: Schemas, s: string)
    ensures CharIssues(SplitIssues(schemas, s)) == InvalidCharacterIssues(s)
  {
    ScanSound(s);
    CharIssuesOfNotes(schemas, s, Scan(s).notes);
    InvalidNotesExact(s, |s|);
    IssuesOfCharNotesOnly(schemas, NoSchemas, s, InvalidNotes(s, |s|));
  }

  /** Without a HED-3 schema, the only issues are the invalid characters. */
  lemma {:induction false} SplitIssuesWithoutHed3(schemas: Schemas, s: string)
    requires !schemas.isHed3
    ensures SplitIssues(schemas, s) == InvalidCharacterIssues(s)
  {
    ScanSound(s);
    NoConversionIssues(schemas, s, Scan(s).notes);
    InvalidNotesExact(s, |s|);
    IssuesOfCharNotesOnly(schemas, NoSchemas, s, InvalidNotes(s, |s|));
  }

  /** Every character is white space, a comma or a double quote. */
  predicate OnlySeparators(s: string) {
    forall i | 0 <= i < |s| :: IsWhitespace(s[i]) || s[i] == ',' || s[i] == '"'
  }

  lemma {:induction false} DepthWithoutParentheses(s: string, n: nat)
    requires n <= |s| && OnlySeparators(s)
    ensures Depth(s, n) == 0
  {
    if n > 0 {
      DepthWithoutParentheses(s, n - 1);
    }
  }

  lemma {:induction false} NotesEmpty(notes: seq<Note>)
    requires TagTexts(notes) == [] && CharNotes(notes) == []
    ensures notes == []
  {
  }

  lemma {:induction false} NoInvalidNotes(s: string, n: nat)
    requires n <= |s| && OnlySeparators(s)
    ensures InvalidNotes(s, n) == []
  {
    if n > 0 {
      NoInvalidNotes(s, n - 1);
    }
  }

  /** Over a string of separators, no span can satisfy `SpansOk`. */
  lemma {:induction false} SeparatorsHaveNoSpans(s: string, spans: seq<Span>, limit: nat)
    requires OnlySeparators(s) && SpansOk(s, spans, limit)
    ensures spans == []
  {
    if spans != [] {
      var sp := spans[|spans| - 1];
      assert SpanOk(s, sp) && TextOk(s, sp);
      var u := Unquoted(s, sp.start, sp.end);
      TrimBlank(u);
      assert !IsBlank(u);
      var i :| 0 <= i < |u| && !IsWhitespace(u[i]);
      var c := u[i];
      UnquotedMembers(s, sp.start, sp.end, c);
      var j :| sp.start <= j < sp.end && s[j] == c;
      assert s[j] == ',';
      DepthWithoutParentheses(s, j + 1);
      CleanAt(s, sp.start, sp.end, j);
      assert false;
    }
  }

  /** White space, commas and quotes alone, including empty stretches between
      commas, emit no tag and raise no issue. */
  lemma {:induction false} SeparatorsYieldNothing(schemas: Schemas, s: string)
    requires OnlySeparators(s)
    ensures Scan(s).spans == []
    ensures SplitIssues(schemas, s) == []
  {
    ScanSound(s);
    SeparatorsHaveNoSpans(s, Scan(s).spans, |s|);
    NoInvalidNotes(s, |s|);
    NotesEmpty(Scan(s).notes);
  }

  // ---------------------------------------------------------------------------
  // Groups and the tag tree
  // ---------------------------------------------------------------------------

  /** `hedStringIsAGroup`: the trimmed string starts with `(` and ends with `)`. */
  predicate HedStringIsAGroup(hedString: string) {
    var t := Trim(hedString);
    |t| > 0 && t[0] == '(' && t[|t| - 1] == ')'
  }

  /** A string is a group exactly when, trimmed, it is some text in parentheses. */
  lemma {:induction false} GroupShape(hedString: string)
    ensures HedStringIsAGroup(hedString) <==> exists inner :: Trim(hedString) == "(" + inner + ")"
  {
    var t := Trim(hedString);
    if HedStringIsAGroup(hedString) {
      assert t == "(" + t[1..|t| - 1] + ")";
    }
  }

  /** `removeGroupParentheses`: `slice(1, -1)`, the string without its first and
      last character, which is empty for a string shorter than two. */
  function RemoveGroupParentheses(tagGroup: string): (r: string)
    ensures |tagGroup| >= 2 ==> [tagGroup[0]] + r + [tagGroup[|tagGroup| - 1]] == tagGroup
    ensures |tagGroup| < 2 ==> r == []
  {
    if |tagGroup| < 2 then [] else tagGroup[1..|tagGroup| - 1]
  }

  /** A trimmed group, such as a tag split from a string, is its inside wrapped
      in parentheses. */
  lemma {:induction false} GroupInside(tagGroup: string)
    requires IsTrimmed(tagGroup) && HedStringIsAGroup(tagGroup)
    ensures "(" + RemoveGroupParentheses(tagGroup) + ")" == tagGroup
    ensures |RemoveGroupParentheses(tagGroup)| == |tagGroup| - 2
  {
    TrimOfTrimmed(tagGroup);
  }

  lemma {:induction false} GroupLength(t: string)
    requires HedStringIsAGroup(t)
    ensures |RemoveGroupParentheses(t)| < |t|
  {
    TrimFacts(t);
  }

  /** A split tag as a tree node: a group holds the tags split from its inside. */
  datatype Node = Leaf(text: string) | Group(text: string, children: seq<Node>)

  function NodeOf(t: string): (r: Node)
    ensures r.text == t
    decreases |t|, 0
  {
    if HedStringIsAGroup(t) then
      GroupLength(t);
      Group(t, Parse(RemoveGroupParentheses(t)))
    else Leaf(t)
  }

  /** The tag tree of a string: one node per tag split from it. */
  function Parse(g: string): (r: seq<Node>)
    ensures |r| == |SplitTexts(g)|
    decreases |g|, 1
  {
    var texts := SplitTexts(g);
    SplitTextsShorter(g);
    seq(|texts|, k requires 0 <= k < |texts| => NodeOf(texts[k]))
  }

  /** The texts of the nodes of a forest. */
  function Texts(nodes: seq<Node>): (r: seq<string>)
    ensures |r| == |nodes| && forall k | 0 <= k < |nodes| :: r[k] == nodes[k].text
  {
    seq(|nodes|, k requires 0 <= k < |nodes| => nodes[k].text)
  }

  /** The non-group tags of a forest at every depth, depth first. */
  function Flat(nodes: seq<Node>): seq<string> {
    if nodes == [] then []
    else (match nodes[0] case Leaf(t) => [t] case Group(_, ch) => Flat(ch)) + Flat(nodes[1..])
  }

  /** The non-group tags of the first level. */
  function TopLeaves(nodes: seq<Node>): seq<string> {
    if nodes == [] then []
    else (if nodes[0].Leaf? then [nodes[0].text] else []) + TopLeaves(nodes[1..])
  }

  /** The non-group tags below the first level, group by group. */
  function NestedFlat(nodes: seq<Node>): seq<string> {
    if nodes == [] then []
    else (match nodes[0] case Leaf(_) => [] case Group(_, ch) => Flat(ch)) + NestedFlat(nodes[1..])
  }

  /** For every group at any depth, the texts of its children; a group comes
      after the groups nested in it. */
  function GroupLists(nodes: seq<Node>): seq<seq<string>> {
    if nodes == [] then []
    else (match nodes[0] case Leaf(_) => [] case Group(_, ch) => GroupLists(ch) + [Texts(ch)]) + GroupLists(nodes[1..])
  }

  /** For every group at any depth, its own text, in the order of `GroupLists`. */
  function GroupStrings(nodes: seq<Node>): seq<string> {
    if nodes == [] then []
    else (match nodes[0] case Leaf(_) => [] case Group(t, ch) => GroupStrings(ch) + [t]) + GroupStrings(nodes[1..])
  }

  /** The issues of splitting the inside of every group, each followed by those
      of the groups nested in it. */
  function GroupIssues(schemas: Schemas, nodes: seq<Node>): seq<Issue> {
    if nodes == [] then []
    else
      (match nodes[0]
       case Leaf(_) => []
       case Group(t, ch) => SplitIssues(schemas, RemoveGroupParentheses(t)) + GroupIssues(schemas, ch))
      + GroupIssues(schemas, nodes[1..])
  }

  /** The number of groups of a forest, at every depth. */
  function GroupCount(nodes: seq<Node>): nat {
    if nodes == [] then 0
    else (match nodes[0] case Leaf(_) => 0 case Group(_, ch) => GroupCount(ch) + 1) + GroupCount(nodes[1..])
  }

  /** The nodes were built by `NodeOf`: a group's children are the tree of its inside. */
  predicate Built(nodes: seq<Node>) {
    forall k | 0 <= k < |nodes| :: nodes[k] == NodeOf(nodes[k].text)
  }

  /** Each node of the tree of `g` is the node of the tag split at its place. */
  lemma {:induction false} ParseBuilt(g: string)
    ensures forall k | 0 <= k < |Parse(g)| :: Parse(g)[k] == NodeOf(SplitTexts(g)[k])
    ensures Built(Parse(g)) && Texts(Parse(g)) == SplitTexts(g)
  {
  }

  /** The top-level tags and the nested ones together are every non-group tag
      of the tree, each once. */
  lemma {:induction false} LeavesPartition(nodes: seq<Node>)
    ensures multiset(TopLeaves(nodes) + NestedFlat(nodes)) == multiset(Flat(nodes))
  {
    if nodes != [] {
      LeavesPartition(nodes[1..]);
    }
  }

  /** The i-th list is what splitting the inside of the i-th group string gives. */
  predicate ZipOk(lists: seq<seq<string>>, strings: seq<string>) {
    |lists| == |strings| && forall i | 0 <= i < |lists| :: lists[i] == SplitTexts(RemoveGroupParentheses(strings[i]))
  }

  lemma {:induction false} ZipAppend(a: seq<seq<string>>, b: seq<string>, c: seq<seq<string>>, d: seq<string>)
    requires ZipOk(a, b) && ZipOk(c, d)
    ensures ZipOk(a + c, b + d)
  {
    forall i | 0 <= i < |a + c|
      ensures (a + c)[i] == SplitTexts(RemoveGroupParentheses((b + d)[i]))
    {
      if i < |a| {
        assert (a + c)[i] == a[i] && (b + d)[i] == b[i];
      } else {
        assert (a + c)[i] == c[i - |a|] && (b + d)[i] == d[i - |b|];
      }
    }
  }

  lemma {:induction false} BuiltTail(nodes: seq<Node>)
    requires nodes != [] && Built(nodes)
    ensures Built(nodes[1..])
  {
    forall k | 0 <= k < |nodes[1..]|
      ensures nodes[1..][k] == NodeOf(nodes[1..][k].text)
    {
      assert nodes[1..][k] == nodes[k + 1];
    }
  }

  /** `GroupLists` and `GroupStrings` pair up: one entry per group at every
      depth, and the i-th list is what splitting the inside of the i-th group
      string gives. */
  lemma {:induction false} GroupsPairUp(nodes: seq<Node>)
    requires Built(nodes)
    ensures |GroupStrings(nodes)| == GroupCount(nodes)
    ensures ZipOk(GroupLists(nodes), GroupStrings(nodes))
  {
    if nodes != [] {
      BuiltTail(nodes);
      GroupsPairUp(nodes[1..]);
      match nodes[0]
      case Leaf(_) =>
      case Group(t, ch) =>
        assert nodes[0] == NodeOf(t);
        ParseBuilt(RemoveGroupParentheses(t));
        GroupsPairUp(ch);
        ZipAppend(GroupLists(ch), GroupStrings(ch), [Texts(ch)], [t]);
        ZipAppend(GroupLists(ch) + [Texts(ch)], GroupStrings(ch) + [t], GroupLists(nodes[1..]), GroupStrings(nodes[1..]));
    }
  }

  // ---------------------------------------------------------------------------
  // Parsed tags and strings, and splitHedString as the source's loop
  // ---------------------------------------------------------------------------

  /** `ParsedHedTag`: a tag cut out of a string. Formatting later rewrites
      `originalTag` and `formattedTag` in place. */
  class ParsedHedTag {
    var originalTag: string
    const originalBounds: (nat, nat)
    var formattedTag: string
    const canonicalTag: string
    const conversionIssues: seq<Issue>
    /** The text the tag was split with, before any formatting. */
    ghost const splitTag: string

    constructor (originalTag: string, originalBounds: (nat, nat), hedSchemas: Schemas)
      ensures this.originalTag == originalTag && splitTag == originalTag
      ensures this.originalBounds == originalBounds && formattedTag == ""
      ensures canonicalTag == CanonicalTag(hedSchemas, originalTag)
      ensures conversionIssues == ConversionIssues(hedSchemas, originalTag)
    {
      this.originalTag := originalTag;
      this.originalBounds := originalBounds;
      formattedTag := "";
      if hedSchemas.isHed3 {
        var converted := hedSchemas.convertHedStringToLong(originalTag);
        canonicalTag := converted.0;
      } else {
        canonicalTag := originalTag;
      }
      conversionIssues := ConversionIssues(hedSchemas, originalTag);
      splitTag := originalTag;
    }
  }

  /** `ParsedHedString`: the string and the lists the sorter fills in. */
  class ParsedHedString {
    const hedString: string
    var tags: seq<ParsedHedTag>
    var tagGroups: seq<seq<ParsedHedTag>>
    var tagGroupStrings: seq<ParsedHedTag>
    var topLevelTags: seq<ParsedHedTag>

    constructor (hedString: string)
      ensures this.hedString == hedString
      ensures tags == [] && tagGroups == [] && tagGroupStrings == [] && topLevelTags == []
    {
      this.hedString := hedString;
      tags := [];
      tagGroups := [];
      tagGroupStrings := [];
      topLevelTags := [];
    }
  }

  /** The schema conversion a tag was built with: its canonical form and the
      conversion issues of the text it was split with. */
  ghost predicate Converted(tag: ParsedHedTag, hedSchemas: Schemas) {
    && tag.canonicalTag == CanonicalTag(hedSchemas, tag.splitTag)
    && tag.conversionIssues == ConversionIssues(hedSchemas, tag.splitTag)
  }

  /** A tag object built from a span. */
  ghost predicate FromSpan(tag: ParsedHedTag, sp: Span, hedSchemas: Schemas) {
    tag.splitTag == sp.text && tag.originalBounds == (sp.start, sp.end) && Converted(tag, hedSchemas)
  }

  /** Not formatted yet: the text is still the one it was split with. */
  ghost predicate Unformatted(tag: ParsedHedTag)
    reads tag
  {
    tag.originalTag == tag.splitTag && tag.formattedTag == ""
  }

  /** No object occurs twice. */
  predicate NoDup<T(==)>(list: seq<T>) {
    forall j, k | 0 <= j < k < |list| :: list[j] != list[k]
  }

  lemma {:induction false} IssuesOfSnoc(schemas: Schemas, s: string, notes: seq<Note>, x: Note)
    ensures IssuesOf(schemas, s, notes + [x]) == IssuesOf(schemas, s, notes) +
      match x
      case CharNote(c, i) => [InvalidCharacter(c, i, s)]
      case TagNote(t) => ConversionIssues(schemas, t)
  {
    assert (notes + [x])[..|notes|] == notes;
  }

  /** The current tag never starts with white space, so "blank" is "empty". */
  lemma {:induction false} CurrentShape(s: string, n: nat)
    requires n <= |s|
    ensures ScanTo(s, n).current == [] || !IsWhitespace(ScanTo(s, n).current[0])
    ensures ScanTo(s, n).reset ==> ScanTo(s, n).current == []
  {
    ScanToInv(s, n);
  }

  lemma {:induction false} BlankIsEmpty(current: string)
    requires current == [] || !IsWhitespace(current[0])
    ensures IsBlank(current) <==> current == []
  {
  }

  lemma {:induction false} BlankAfterAppend(current: string, c: char)
    requires current == [] || !IsWhitespace(current[0])
    ensures IsBlank(current + [c]) <==> (current == [] && IsWhitespace(c))
  {
    assert (current + [c])[0] == if current == [] then c else current[0];
  }

  /** The tag objects were built from the spans, one each, in order. */
  ghost predicate TagsFromSpans(hedTags: seq<ParsedHedTag>, spans: seq<Span>, hedSchemas: Schemas) {
    |hedTags| == |spans| && forall k | 0 <= k < |hedTags| :: FromSpan(hedTags[k], spans[k], hedSchemas)
  }

  lemma {:induction false} TagsFromSpansSnoc(hedTags: seq<ParsedHedTag>, spans: seq<Span>, tag: ParsedHedTag, sp: Span, hedSchemas: Schemas)
    requires TagsFromSpans(hedTags, spans, hedSchemas) && FromSpan(tag, sp, hedSchemas)
    ensures TagsFromSpans(hedTags + [tag], spans + [sp], hedSchemas)
  {
    var h := hedTags + [tag];
    var p := spans + [sp];
    forall k | 0 <= k < |h|
      ensures FromSpan(h[k], p[k], hedSchemas)
    {
      if k < |hedTags| {
        assert h[k] == hedTags[k] && p[k] == spans[k];
      }
    }
  }

  lemma {:induction false} NoDupSnoc<T>(list: seq<T>, x: T)
    requires NoDup(list) && x !in list
    ensures NoDup(list + [x])
  {
    var l := list + [x];
    forall j, k | 0 <= j < k < |l|
      ensures l[j] != l[k]
    {
      assert l[j] == list[j];
      if k < |list| {
        assert l[k] == list[k];
      }
    }
  }

  /** Build the tag object for a cut, push it, and append its conversion issues. */
  method PushTag(s: string, hedSchemas: Schemas, hedTags: seq<ParsedHedTag>, issues: seq<Issue>,
                 ghost spans: seq<Span>, ghost notes: seq<Note>, text: string, start: nat, end: nat)
    returns (tags': seq<ParsedHedTag>, issues': seq<Issue>, ghost spans': seq<Span>, ghost notes': seq<Note>)
    requires TagsFromSpans(hedTags, spans, hedSchemas) && NoDup(hedTags)
    requires issues == IssuesOf(hedSchemas, s, notes)
    ensures spans' == spans + [Span(text, start, end)] && notes' == notes + [TagNote(text)]
    ensures |tags'| == |hedTags| + 1 && tags' == hedTags + [tags'[|hedTags|]]
    ensures fresh(tags'[|hedTags|]) && Unformatted(tags'[|hedTags|])
    ensures TagsFromSpans(tags', spans', hedSchemas) && NoDup(tags')
    ensures issues' == IssuesOf(hedSchemas, s, notes')
  {
    var parsedHedTag := new ParsedHedTag(text, (start, end), hedSchemas);
    tags' := hedTags + [parsedHedTag];
    issues' := issues + parsedHedTag.conversionIssues;
    spans' := spans + [Span(text, start, end)];
    notes' := notes + [TagNote(text)];
    TagsFromSpansSnoc(hedTags, spans, parsedHedTag, Span(text, start, end), hedSchemas);
    NoDupSnoc(hedTags, parsedHedTag);
    IssuesOfSnoc(hedSchemas, s, notes, TagNote(text));
  }

  /** One pass of the loop of `splitHedString`, at index `i`. */
  method SplitCharacter(hedString: string, hedSchemas: Schemas, i: nat,
                        groupDepth: int, currentTag: string, startingIndex: nat, resetStartingIndex: bool,
                        hedTags: seq<ParsedHedTag>, issues: seq<Issue>, ghost spans: seq<Span>, ghost notes: seq<Note>)
    returns (groupDepth': int, currentTag': string, startingIndex': nat, resetStartingIndex': bool,
             hedTags': seq<ParsedHedTag>, issues': seq<Issue>, ghost spans': seq<Span>, ghost notes': seq<Note>)
    requires i < |hedString|
    requires ScanTo(hedString, i) == Scanner(groupDepth, currentTag, startingIndex, resetStartingIndex, spans, notes)
    requires TagsFromSpans(hedTags, spans, hedSchemas) && NoDup(hedTags)
    requires issues == IssuesOf(hedSchemas, hedString, notes)
    ensures ScanTo(hedString, i + 1) == Scanner(groupDepth', currentTag', startingIndex', resetStartingIndex', spans', notes')
    ensures TagsFromSpans(hedTags', spans', hedSchemas) && NoDup(hedTags')
    ensures issues' == IssuesOf(hedSchemas, hedString, notes')
    ensures hedTags' == hedTags || (|hedTags'| == |hedTags| + 1 && hedTags' == hedTags + [hedTags'[|hedTags|]] && fresh(hedTags'[|hedTags|]) && Unformatted(hedTags'[|hedTags|]))
  {
    groupDepth', currentTag', startingIndex', resetStartingIndex' := groupDepth, currentTag, startingIndex, resetStartingIndex;
    hedTags', issues', spans', notes' := hedTags, issues, spans, notes;
    ghost var before := Restart(ScanTo(hedString, i), i);
    ScanToNext(hedString, i);
    CurrentShape(hedString, i);
    if resetStartingIndex' {
      startingIndex' := i;
      resetStartingIndex' := false;
    }
    var character := hedString[i];
    if character == '"' {
      return;
    } else if character == '(' {
      groupDepth' := groupDepth' + 1;
    } else if character == ')' {
      groupDepth' := groupDepth' - 1;
    }
    BlankIsEmpty(currentTag');
    if groupDepth' == 0 && character == ',' {
      AdvanceCut(hedString, i, before);
      if !IsBlank(currentTag') {
        hedTags', issues', spans', notes' := PushTag(hedString, hedSchemas, hedTags', issues', spans', notes',
                                                 Trim(currentTag'), startingIndex', i);
      }
      resetStartingIndex' := true;
      currentTag' := "";
    } else if IsInvalidCharacter(character) {
      AdvanceCut(hedString, i, before);
      IssuesOfSnoc(hedSchemas, hedString, notes', CharNote(character, i));
      issues' := issues' + [InvalidCharacter(character, i, hedString)];
      notes' := notes' + [CharNote(character, i)];
      if !IsBlank(currentTag') {
        hedTags', issues', spans', notes' := PushTag(hedString, hedSchemas, hedTags', issues', spans', notes',
                                                 Trim(currentTag'), startingIndex', i);
      }
      resetStartingIndex' := true;
      currentTag' := "";
    } else {
      BlankAfterAppend(currentTag', character);
      if currentTag' == [] && IsWhitespace(character) {
        AdvanceBlank(hedString, i, before);
      } else {
        AdvanceAppend(hedString, i, before);
      }
      currentTag' := currentTag' + [character];
      if IsBlank(currentTag') {
        resetStartingIndex' := true;
        currentTag' := "";
      }
    }
  }

  method SplitHedString(hedString: string, hedSchemas: Schemas) returns (hedTags: seq<ParsedHedTag>, issues: seq<Issue>)
    ensures forall o: ParsedHedTag | o in hedTags :: fresh(o) && Unformatted(o)
    ensures TagsFromSpans(hedTags, Scan(hedString).spans, hedSchemas)
    ensures NoDup(hedTags)
    ensures issues == SplitIssues(hedSchemas, hedString)
  {
    hedTags := [];
    issues := [];
    var groupDepth := 0;
    var currentTag := "";
    var startingIndex := 0;
    var resetStartingIndex := false;
    ghost var spans: seq<Span> := [];
    ghost var notes: seq<Note> := [];
    for i := 0 to |hedString|
      invariant ScanTo(hedString, i) == Scanner(groupDepth, currentTag, startingIndex, resetStartingIndex, spans, notes)
      invariant forall o: ParsedHedTag | o in hedTags :: fresh(o) && Unformatted(o)
      invariant TagsFromSpans(hedTags, spans, hedSchemas) && NoDup(hedTags)
      invariant issues == IssuesOf(hedSchemas, hedString, notes)
    {
      groupDepth, currentTag, startingIndex, resetStartingIndex, hedTags, issues, spans, notes :=
        SplitCharacter(hedString, hedSchemas, i, groupDepth, currentTag, startingIndex, resetStartingIndex,
                       hedTags, issues, spans, notes);
    }
    CurrentShape(hedString, |hedString|);
    BlankIsEmpty(currentTag);
    if !IsBlank(currentTag) {
      hedTags, issues, spans, notes := PushTag(hedString, hedSchemas, hedTags, issues, spans, notes,
                                               Trim(currentTag), startingIndex, |hedString|);
    }
  }

  // ---------------------------------------------------------------------------
  // findTopLevelTags
  // ---------------------------------------------------------------------------

  /** The tags of a list that are not groups, in order. */
  function NonGroups(list: seq<ParsedHedTag>): seq<ParsedHedTag>
    reads set o | o in list
  {
    if list == [] then []
    else
      var last := list[|list| - 1];
      NonGroups(list[..|list| - 1]) + (if HedStringIsAGroup(last.originalTag) then [] else [last])
  }

  /** `xs` pushed onto `l` one by one, each unless the list already includes it. */
  function PushAbsent<T(==)>(l: seq<T>, xs: seq<T>): seq<T> {
    if xs == [] then l
    else
      var p := PushAbsent(l, xs[..|xs| - 1]);
      if xs[|xs| - 1] in p then p else p + [xs[|xs| - 1]]
  }

  /** `NonGroups` keeps exactly the non-group tags, in their order. */
  lemma {:induction false} NonGroupsMembers(list: seq<ParsedHedTag>, o: ParsedHedTag)
    ensures o in NonGroups(list) <==> o in list && !HedStringIsAGroup(o.originalTag)
  {
    if list != [] {
      NonGroupsMembers(list[..|list| - 1], o);
      assert list == list[..|list| - 1] + [list[|list| - 1]];
    }
  }

  /** Membership after pushing: what was there, and what was pushed. */
  lemma {:induction false} PushAbsentMembers<T>(l: seq<T>, xs: seq<T>, x: T)
    ensures x in PushAbsent(l, xs) <==> x in l || x in xs
  {
    if xs != [] {
      PushAbsentMembers(l, xs[..|xs| - 1], x);
      assert xs == xs[..|xs| - 1] + [xs[|xs| - 1]];
    }
  }

  /** Pushing keeps the list free of repeated objects, and only appends. */
  lemma {:induction false} PushAbsentNoDup<T>(l: seq<T>, xs: seq<T>)
    requires NoDup(l)
    ensures NoDup(PushAbsent(l, xs))
    ensures |l| <= |PushAbsent(l, xs)| && PushAbsent(l, xs)[..|l|] == l
  {
    if xs != [] {
      var p := PushAbsent(l, xs[..|xs| - 1]);
      PushAbsentNoDup(l, xs[..|xs| - 1]);
      if xs[|xs| - 1] !in p {
        NoDupSnoc(p, xs[|xs| - 1]);
        assert (p + [xs[|xs| - 1]])[..|l|] == p[..|l|];
      }
    }
  }

  /** Onto a list that shares nothing with `xs`, a list without repeats is pushed whole. */
  lemma {:induction false} PushAbsentFresh<T>(l: seq<T>, xs: seq<T>)
    requires NoDup(xs) && forall x | x in xs :: x !in l
    ensures PushAbsent(l, xs) == l + xs
  {
    if xs != [] {
      var init := xs[..|xs| - 1];
      var x := xs[|xs| - 1];
      assert NoDup(init) by {
        forall j, k | 0 <= j < k < |init|
          ensures init[j] != init[k]
        {
          assert init[j] == xs[j] && init[k] == xs[k];
        }
      }
      assert forall y | y in init :: y in xs;
      PushAbsentFresh(l, init);
      assert x !in init by {
        forall j | 0 <= j < |init|
          ensures init[j] != x
        {
          assert init[j] == xs[j];
        }
      }
      assert (l + init) + [x] == l + xs;
    }
  }

  /** `findTopLevelTags`: the non-group tags of the list, in order; each is
      also pushed onto `parsedString.tags` unless already there. */
  method FindTopLevelTags(hedTags: seq<ParsedHedTag>, hedSchemas: Schemas, parsedString: ParsedHedString)
    returns (topLevelTags: seq<ParsedHedTag>)
    modifies parsedString
    ensures topLevelTags == NonGroups(hedTags)
    ensures parsedString.tags == PushAbsent(old(parsedString.tags), topLevelTags)
    ensures parsedString.tagGroups == old(parsedString.tagGroups)
    ensures parsedString.tagGroupStrings == old(parsedString.tagGroupStrings)
    ensures parsedString.topLevelTags == old(parsedString.topLevelTags)
  {
    topLevelTags := [];
    for i := 0 to |hedTags|
      invariant topLevelTags == NonGroups(hedTags[..i])
      invariant parsedString.tags == PushAbsent(old(parsedString.tags), topLevelTags)
      invariant parsedString.tagGroups == old(parsedString.tagGroups)
      invariant parsedString.tagGroupStrings == old(parsedString.tagGroupStrings)
      invariant parsedString.topLevelTags == old(parsedString.topLevelTags)
    {
      var tagOrGroup := hedTags[i];
      assert hedTags[..i + 1][..i] == hedTags[..i];
      ghost var next := NonGroups(hedTags[..i + 1]);
      assert next == topLevelTags + if HedStringIsAGroup(tagOrGroup.originalTag) then [] else [tagOrGroup];
      if !HedStringIsAGroup(tagOrGroup.originalTag) {
        assert (topLevelTags + [tagOrGroup])[..|topLevelTags|] == topLevelTags;
        topLevelTags := topLevelTags + [tagOrGroup];
        if tagOrGroup !in parsedString.tags {
          parsedString.tags := parsedString.tags + [tagOrGroup];
        }
      } else {
        assert topLevelTags + [] == topLevelTags;
      }
    }
    assert hedTags[..|hedTags|] == hedTags;
  }

  // ---------------------------------------------------------------------------
  // findTagGroups
  // ---------------------------------------------------------------------------

  /** The tag lists of `tagGroups`, one after the other. */
  function Concat(groups: seq<seq<ParsedHedTag>>): seq<ParsedHedTag> {
    if groups == [] then [] else Concat(groups[..|groups| - 1]) + groups[|groups| - 1]
  }

  /** The current `originalTag` of each tag of a list. */
  ghost function SplitTags(list: seq<ParsedHedTag>): (r: seq<string>)
    ensures |r| == |list|
  {
    if list == [] then [] else SplitTags(list[..|list| - 1]) + [list[|list| - 1].splitTag]
  }

  /** The texts of each list of `tagGroups`. */
  ghost function ListsTexts(groups: seq<seq<ParsedHedTag>>): seq<seq<string>> {
    if groups == [] then [] else ListsTexts(groups[..|groups| - 1]) + [SplitTags(groups[|groups| - 1])]
  }

  /** The tree node of each tag of a list, by its current text. */
  ghost function ItemNodes(list: seq<ParsedHedTag>): (r: seq<Node>)
    ensures |r| == |list|
  {
    if list == [] then [] else ItemNodes(list[..|list| - 1]) + [NodeOf(list[|list| - 1].splitTag)]
  }

  /** The texts `findTagGroups` pushes onto `tags` for a list: below each group,
      all of its non-group tags at every depth; and each non-group tag of the
      list itself unless `seen` or an earlier entry of the list already has it. */
  ghost function GroupFlat(list: seq<ParsedHedTag>, seen: seq<ParsedHedTag>): seq<string>
  {
    if list == [] then []
    else
      var init := list[..|list| - 1];
      var last := list[|list| - 1];
      GroupFlat(init, seen) +
        match NodeOf(last.splitTag)
        case Group(_, ch) => Flat(ch)
        case Leaf(t) => if last in seen || last in init then [] else [t]
  }

  /** The longest `originalTag` of a list, which bounds the recursion. */
  function MaxLength(list: seq<ParsedHedTag>): (r: nat)
    reads set o | o in list
    ensures forall k | 0 <= k < |list| :: |list[k].originalTag| <= r
  {
    if list == [] then 0
    else
      var m := MaxLength(list[..|list| - 1]);
      var n := |list[|list| - 1].originalTag|;
      if m < n then n else m
  }

  /** Every tag of the list still has the text it was split with. */
  ghost predicate AsSplit(list: seq<ParsedHedTag>)
    reads set o | o in list
  {
    forall o: ParsedHedTag | o in list :: o.originalTag == o.splitTag
  }

  /** What `findTagGroups` pushed for `list`: the added `tags`, `tagGroups` and
      `tagGroupStrings` (besides what those held before) and the returned
      issues match the tag tree of the list. The added group lists hold tags
      built by `splitHedString`, each only once. */
  ghost predicate SortedTexts(hedSchemas: Schemas, list: seq<ParsedHedTag>, seen: seq<ParsedHedTag>,
                              tags: seq<ParsedHedTag>, groups: seq<seq<ParsedHedTag>>, strings: seq<ParsedHedTag>,
                              issues: seq<Issue>)
  {
    && SplitTags(tags) == GroupFlat(list, seen)
    && ListsTexts(groups) == GroupLists(ItemNodes(list))
    && SplitTags(strings) == GroupStrings(ItemNodes(list))
    && issues == GroupIssues(hedSchemas, ItemNodes(list))
  }

  /** The tree functions distribute over concatenated forests. */
  lemma {:induction false} FlatAppend(a: seq<Node>, b: seq<Node>)
    ensures Flat(a + b) == Flat(a) + Flat(b)
  {
    if a == [] {
      assert a + b == b;
    } else {
      assert (a + b)[0] == a[0];
      DropAppend(a, b, 1);
      FlatAppend(a[1..], b);
      var head := match a[0] case Leaf(t) => [t] case Group(_, ch) => Flat(ch);
      assert Flat(a + b) == head + Flat(a[1..] + b);
      assert Flat(a) == head + Flat(a[1..]);
      AppendAssoc(head, Flat(a[1..]), Flat(b));
    }
  }

  lemma {:induction false} TopLeavesAppend(a: seq<Node>, b: seq<Node>)
    ensures TopLeaves(a + b) == TopLeaves(a) + TopLeaves(b)
  {
    if a == [] {
      assert a + b == b;
    } else {
      assert (a + b)[0] == a[0];
      DropAppend(a, b, 1);
      TopLeavesAppend(a[1..], b);
      var head := if a[0].Leaf? then [a[0].text] else [];
      assert TopLeaves(a + b) == head + TopLeaves(a[1..] + b);
      assert TopLeaves(a) == head + TopLeaves(a[1..]);
      AppendAssoc(head, TopLeaves(a[1..]), TopLeaves(b));
    }
  }

  lemma {:induction false} NestedFlatAppend(a: seq<Node>, b: seq<Node>)
    ensures NestedFlat(a + b) == NestedFlat(a) + NestedFlat(b)
  {
    if a == [] {
      assert a + b == b;
    } else {
      assert (a + b)[0] == a[0];
      DropAppend(a, b, 1);
      NestedFlatAppend(a[1..], b);
      var head := match a[0] case Leaf(_) => [] case Group(_, ch) => Flat(ch);
      assert NestedFlat(a + b) == head + NestedFlat(a[1..] + b);
      assert NestedFlat(a) == head + NestedFlat(a[1..]);
      AppendAssoc(head, NestedFlat(a[1..]), NestedFlat(b));
    }
  }

  lemma {:induction false} GroupListsAppend(a: seq<Node>, b: seq<Node>)
    ensures GroupLists(a + b) == GroupLists(a) + GroupLists(b)
  {
    if a == [] {
      assert a + b == b;
    } else {
      assert (a + b)[0] == a[0];
      DropAppend(a, b, 1);
      GroupListsAppend(a[1..], b);
      var head := match a[0] case Leaf(_) => [] case Group(_, ch) => GroupLists(ch) + [Texts(ch)];
      assert GroupLists(a + b) == head + GroupLists(a[1..] + b);
      assert GroupLists(a) == head + GroupLists(a[1..]);
      AppendAssoc(head, GroupLists(a[1..]), GroupLists(b));
    }
  }

  lemma {:induction false} GroupStringsAppend(a: seq<Node>, b: seq<Node>)
    ensures GroupStrings(a + b) == GroupStrings(a) + GroupStrings(b)
  {
    if a == [] {
      assert a + b == b;
    } else {
      assert (a + b)[0] == a[0];
      DropAppend(a, b, 1);
      GroupStringsAppend(a[1..], b);
      var head := match a[0] case Leaf(_) => [] case Group(t, ch) => GroupStrings(ch) + [t];
      assert GroupStrings(a + b) == head + GroupStrings(a[1..] + b);
      assert GroupStrings(a) == head + GroupStrings(a[1..]);
      AppendAssoc(head, GroupStrings(a[1..]), GroupStrings(b));
    }
  }

  lemma {:induction false} GroupIssuesAppend(schemas: Schemas, a: seq<Node>, b: seq<Node>)
    ensures GroupIssues(schemas, a + b) == GroupIssues(schemas, a) + GroupIssues(schemas, b)
  {
    if a == [] {
      assert a + b == b;
    } else {
      assert (a + b)[0] == a[0] && (a + b)[1..] == a[1..] + b;
      GroupIssuesAppend(schemas, a[1..], b);
    }
  }

  lemma {:induction false} SplitTagsAppend(a: seq<ParsedHedTag>, b: seq<ParsedHedTag>)
    ensures SplitTags(a + b) == SplitTags(a) + SplitTags(b)
  {
    if b != [] {
      assert (a + b)[..|a + b| - 1] == a + b[..|b| - 1];
      SplitTagsAppend(a, b[..|b| - 1]);
    } else {
      assert a + b == a;
    }
  }

  lemma {:induction false} ConcatAppend(a: seq<seq<ParsedHedTag>>, b: seq<seq<ParsedHedTag>>)
    ensures Concat(a + b) == Concat(a) + Concat(b)
    ensures ListsTexts(a + b) == ListsTexts(a) + ListsTexts(b)
  {
    if b != [] {
      assert (a + b)[..|a + b| - 1] == a + b[..|b| - 1];
      ConcatAppend(a, b[..|b| - 1]);
    } else {
      assert a + b == a;
    }
  }

  lemma {:induction false} NoDupAppend<T>(a: seq<T>, b: seq<T>)
    requires NoDup(a) && NoDup(b) && forall x | x in a :: x !in b
    ensures NoDup(a + b)
  {
    var c := a + b;
    forall j, k | 0 <= j < k < |c|
      ensures c[j] != c[k]
    {
      if k < |a| {
        assert c[j] == a[j] && c[k] == a[k];
      } else if j >= |a| {
        assert c[j] == b[j - |a|] && c[k] == b[k - |a|];
      } else {
        assert c[j] == a[j] && c[k] == b[k - |a|];
        assert a[j] in a && b[k - |a|] in b;
      }
    }
  }

  /** A list without repeats, none of them seen, contributes every non-group
      tag of its tree. */
  lemma {:induction false} GroupFlatUnseen(list: seq<ParsedHedTag>, seen: seq<ParsedHedTag>)
    requires NoDup(list) && forall o: ParsedHedTag | o in list :: o !in seen
    ensures GroupFlat(list, seen) == Flat(ItemNodes(list))
  {
    if list != [] {
      var init := list[..|list| - 1];
      var last := list[|list| - 1];
      assert NoDup(init) by {
        forall j, k | 0 <= j < k < |init|
          ensures init[j] != init[k]
        {
          assert init[j] == list[j] && init[k] == list[k];
        }
      }
      assert forall o: ParsedHedTag | o in init :: o in list;
      assert last !in init by {
        forall j | 0 <= j < |init|
          ensures init[j] != last
        {
          assert init[j] == list[j];
        }
      }
      calc {
        GroupFlat(list, seen);
      == { GroupFlatLast(list, seen); }
        GroupFlat(init, seen) + Flat([NodeOf(last.splitTag)]);
      == { GroupFlatUnseen(init, seen); }
        Flat(ItemNodes(init)) + Flat([NodeOf(last.splitTag)]);
      == { FlatAppend(ItemNodes(init), [NodeOf(last.splitTag)]); }
        Flat(ItemNodes(init) + [NodeOf(last.splitTag)]);
      }
    }
  }

  /** The last entry of a list, when it is new, adds all of its own tree. */
  lemma {:induction false} GroupFlatLast(list: seq<ParsedHedTag>, seen: seq<ParsedHedTag>)
    requires list != []
    requires list[|list| - 1] !in seen && list[|list| - 1] !in list[..|list| - 1]
    ensures GroupFlat(list, seen) == GroupFlat(list[..|list| - 1], seen) + Flat([NodeOf(list[|list| - 1].splitTag)])
  {
    var n := NodeOf(list[|list| - 1].splitTag);
    assert [n][1..] == [];
  }

  /** The tags split from a string, as a list, have that string's tree. */
  lemma {:induction false} ItemNodesOfSplit(list: seq<ParsedHedTag>, g: string)
    requires SplitTags(list) == SplitTexts(g)
    ensures ItemNodes(list) == Parse(g)
  {
    ParseBuilt(g);
    ItemNodesIndex(list);
    SplitTagsIndex(list);
  }

  lemma {:induction false} ItemNodesIndex(list: seq<ParsedHedTag>)
    ensures forall k | 0 <= k < |list| :: ItemNodes(list)[k] == NodeOf(list[k].splitTag)
  {
    if list != [] {
      ItemNodesIndex(list[..|list| - 1]);
    }
  }

  lemma {:induction false} SplitTagsIndex(list: seq<ParsedHedTag>)
    ensures forall k | 0 <= k < |list| :: SplitTags(list)[k] == list[k].splitTag
  {
    if list != [] {
      SplitTagsIndex(list[..|list| - 1]);
    }
  }

  lemma {:induction false} MaxLengthBound(list: seq<ParsedHedTag>, n: nat)
    requires forall k | 0 <= k < |list| :: |list[k].originalTag| <= n
    ensures MaxLength(list) <= n
  {
    if list != [] {
      MaxLengthBound(list[..|list| - 1], n);
    }
  }

  /** The tags `splitHedString` returns carry the split texts, unformatted. */
  lemma {:induction false} SplitTagsTexts(hedTags: seq<ParsedHedTag>, g: string, hedSchemas: Schemas)
    requires TagsFromSpans(hedTags, Scan(g).spans, hedSchemas)
    requires forall o: ParsedHedTag | o in hedTags :: Unformatted(o)
    ensures SplitTags(hedTags) == SplitTexts(g)
    ensures forall o: ParsedHedTag | o in hedTags :: Converted(o, hedSchemas)
    ensures AsSplit(hedTags)
    ensures MaxLength(hedTags) <= |g|
  {
    SplitTagsIndex(hedTags);
    SplitTextsShorter(g);
    forall k | 0 <= k < |hedTags|
      ensures |hedTags[k].originalTag| <= |g|
    {
      assert Unformatted(hedTags[k]);
      assert FromSpan(hedTags[k], Scan(g).spans[k], hedSchemas);
      assert SplitTexts(g)[k] == Scan(g).spans[k].text;
    }
    MaxLengthBound(hedTags, |g|);
  }

  lemma {:induction false} SliceSplit<T>(a: seq<T>, m: nat, n: nat)
    requires m <= n <= |a|
    ensures a[m..] == a[m..n] + a[n..]
  {
  }

  /** Sorting one more non-group tag: pushed unless seen or already in the list. */
  lemma {:induction false} TextsLeafSnoc(hedSchemas: Schemas, list: seq<ParsedHedTag>, x: ParsedHedTag,
                                         seen: seq<ParsedHedTag>, tags: seq<ParsedHedTag>,
                                         groups: seq<seq<ParsedHedTag>>, strings: seq<ParsedHedTag>,
                                         issues: seq<Issue>, pushed: seq<ParsedHedTag>)
    requires SortedTexts(hedSchemas, list, seen, tags, groups, strings, issues)
    requires !HedStringIsAGroup(x.splitTag)
    requires pushed == if x in seen || x in list then [] else [x]
    ensures SortedTexts(hedSchemas, list + [x], seen, tags + pushed, groups, strings, issues)
  {
    var l := list + [x];
    assert l[..|l| - 1] == list && l[|l| - 1] == x;
    var nodes := ItemNodes(list);
    assert ItemNodes(l) == nodes + [Leaf(x.splitTag)];
    SplitTagsAppend(tags, pushed);
    GroupListsAppend(nodes, [Leaf(x.splitTag)]);
    GroupStringsAppend(nodes, [Leaf(x.splitTag)]);
    GroupIssuesAppend(hedSchemas, nodes, [Leaf(x.splitTag)]);
  }

  /** Sorting one more group, whose own sorting pushed `tags2`, `groups2` and `strings2`. */
  lemma {:induction false} TextsGroupSnoc(hedSchemas: Schemas, list: seq<ParsedHedTag>, x: ParsedHedTag,
                                          seen: seq<ParsedHedTag>, seen2: seq<ParsedHedTag>,
                                          tags: seq<ParsedHedTag>, groups: seq<seq<ParsedHedTag>>,
                                          strings: seq<ParsedHedTag>, issues: seq<Issue>,
                                          tags2: seq<ParsedHedTag>, groups2: seq<seq<ParsedHedTag>>,
                                          strings2: seq<ParsedHedTag>, issues2: seq<Issue>)
    requires SortedTexts(hedSchemas, list, seen, tags, groups, strings, issues)
    requires SortedTexts(hedSchemas, [x], seen2, tags2, groups2, strings2, issues2)
    requires HedStringIsAGroup(x.splitTag)
    ensures SortedTexts(hedSchemas, list + [x], seen, tags + tags2, groups + groups2, strings + strings2, issues + issues2)
  {
    var l := list + [x];
    assert l[..|l| - 1] == list && l[|l| - 1] == x;
    assert [x][..0] == [];
    var nodes := ItemNodes(list);
    var n := NodeOf(x.splitTag);
    assert ItemNodes(l) == nodes + [n];
    assert ItemNodes([x]) == [n];
    GroupFlatSnoc(list, x, seen, seen2);
    SplitTagsAppend(tags, tags2);
    TreeListsSnoc(hedSchemas, nodes, n);
    ConcatAppend(groups, groups2);
    SplitTagsAppend(strings, strings2);
  }

  /** A group adds its nested non-group tags, whatever was seen. */
  lemma {:induction false} GroupFlatSnoc(list: seq<ParsedHedTag>, x: ParsedHedTag, seen: seq<ParsedHedTag>, seen2: seq<ParsedHedTag>)
    requires HedStringIsAGroup(x.splitTag)
    ensures GroupFlat(list + [x], seen) == GroupFlat(list, seen) + GroupFlat([x], seen2)
  {
    var l := list + [x];
    assert l[..|l| - 1] == list && l[|l| - 1] == x;
    calc {
      GroupFlat(l, seen);
      GroupFlat(list, seen) + Flat(Parse(RemoveGroupParentheses(x.splitTag)));
    == { GroupFlatGroup(x, seen2); }
      GroupFlat(list, seen) + GroupFlat([x], seen2);
    }
  }

  lemma {:induction false} TreeListsSnoc(hedSchemas: Schemas, nodes: seq<Node>, n: Node)
    ensures GroupLists(nodes + [n]) == GroupLists(nodes) + GroupLists([n])
    ensures GroupStrings(nodes + [n]) == GroupStrings(nodes) + GroupStrings([n])
    ensures GroupIssues(hedSchemas, nodes + [n]) == GroupIssues(hedSchemas, nodes) + GroupIssues(hedSchemas, [n])
  {
    GroupListsAppend(nodes, [n]);
    GroupStringsAppend(nodes, [n]);
    GroupIssuesAppend(hedSchemas, nodes, [n]);
  }

  /** A group's node has the tree of its inside as children. */
  lemma {:induction false} GroupNode(x: ParsedHedTag)
    requires HedStringIsAGroup(x.splitTag)
    ensures ItemNodes([x]) == [Group(x.splitTag, Parse(RemoveGroupParentheses(x.splitTag)))]
  {
    assert [x][..0] == [];
  }

  /** The tags pushed for one group are all non-group tags below it. */
  lemma {:induction false} GroupTagsPushed(x: ParsedHedTag, nested: seq<ParsedHedTag>,
                                           seen: seq<ParsedHedTag>, seen2: seq<ParsedHedTag>)
    requires HedStringIsAGroup(x.splitTag)
    requires SplitTags(nested) == SplitTexts(RemoveGroupParentheses(x.splitTag)) && NoDup(nested)
    requires forall o: ParsedHedTag | o in nested :: o !in seen2
    ensures GroupFlat(nested, seen2) == GroupFlat([x], seen)
  {
    var inner := RemoveGroupParentheses(x.splitTag);
    calc {
      GroupFlat(nested, seen2);
    == { GroupFlatUnseen(nested, seen2); }
      Flat(ItemNodes(nested));
    == { ItemNodesOfSplit(nested, inner); }
      Flat(Parse(inner));
    == { GroupFlatGroup(x, seen); }
      GroupFlat([x], seen);
    }
  }

  /** A single group contributes all non-group tags below it. */
  lemma {:induction false} GroupFlatGroup(x: ParsedHedTag, seen: seq<ParsedHedTag>)
    requires HedStringIsAGroup(x.splitTag)
    ensures GroupFlat([x], seen) == Flat(Parse(RemoveGroupParentheses(x.splitTag)))
  {
    assert [x][..0] == [];
  }

  /** The group lists pushed for one group: those below it, then its own. */
  lemma {:induction false} GroupListsPushed(x: ParsedHedTag, nested: seq<ParsedHedTag>, groups: seq<seq<ParsedHedTag>>)
    requires HedStringIsAGroup(x.splitTag)
    requires SplitTags(nested) == SplitTexts(RemoveGroupParentheses(x.splitTag))
    requires ListsTexts(groups) == GroupLists(ItemNodes(nested))
    ensures ListsTexts(groups + [nested]) == GroupLists(ItemNodes([x]))
  {
    var inner := RemoveGroupParentheses(x.splitTag);
    var ch := Parse(inner);
    var n := Group(x.splitTag, ch);
    GroupNode(x);
    ItemNodesOfSplit(nested, inner);
    ParseBuilt(inner);
    assert GroupLists([n]) == GroupLists(ch) + [Texts(ch)] + GroupLists([n][1..]);
    ConcatAppend(groups, [nested]);
    assert [nested][..0] == [];
    assert ListsTexts([nested]) == [SplitTags(nested)];
  }

  /** The group strings pushed for one group: those below it, then the group itself. */
  lemma {:induction false} GroupStringsPushed(x: ParsedHedTag, nested: seq<ParsedHedTag>, strings: seq<ParsedHedTag>)
    requires HedStringIsAGroup(x.splitTag)
    requires SplitTags(nested) == SplitTexts(RemoveGroupParentheses(x.splitTag))
    requires SplitTags(strings) == GroupStrings(ItemNodes(nested))
    ensures SplitTags(strings + [x]) == GroupStrings(ItemNodes([x]))
  {
    var inner := RemoveGroupParentheses(x.splitTag);
    var ch := Parse(inner);
    var n := Group(x.splitTag, ch);
    GroupNode(x);
    ItemNodesOfSplit(nested, inner);
    assert GroupStrings([n]) == GroupStrings(ch) + [x.splitTag] + GroupStrings([n][1..]);
    SplitTagsAppend(strings, [x]);
    assert SplitTags([x]) == [x.splitTag];
  }

  /** The issues of one group: those of splitting its inside, then those below it. */
  lemma {:induction false} GroupIssuesPushed(hedSchemas: Schemas, x: ParsedHedTag, nested: seq<ParsedHedTag>,
                                             issues: seq<Issue>, splitIssues: seq<Issue>)
    requires HedStringIsAGroup(x.splitTag)
    requires SplitTags(nested) == SplitTexts(RemoveGroupParentheses(x.splitTag))
    requires issues == GroupIssues(hedSchemas, ItemNodes(nested))
    requires splitIssues == SplitIssues(hedSchemas, RemoveGroupParentheses(x.splitTag))
    ensures splitIssues + issues == GroupIssues(hedSchemas, ItemNodes([x]))
  {
    var inner := RemoveGroupParentheses(x.splitTag);
    var ch := Parse(inner);
    var n := Group(x.splitTag, ch);
    GroupNode(x);
    ItemNodesOfSplit(nested, inner);
    assert GroupIssues(hedSchemas, [n]) == SplitIssues(hedSchemas, inner) + GroupIssues(hedSchemas, ch) + GroupIssues(hedSchemas, [n][1..]);
  }

  /** The sorting of one group: its tree is that of the tags split from its inside. */
  lemma {:induction false} TextsGroup(hedSchemas: Schemas, x: ParsedHedTag, nested: seq<ParsedHedTag>,
                                      seen: seq<ParsedHedTag>, seen2: seq<ParsedHedTag>,
                                      tags: seq<ParsedHedTag>, groups: seq<seq<ParsedHedTag>>,
                                      strings: seq<ParsedHedTag>, issues: seq<Issue>, splitIssues: seq<Issue>)
    requires HedStringIsAGroup(x.splitTag)
    requires SplitTags(nested) == SplitTexts(RemoveGroupParentheses(x.splitTag)) && NoDup(nested)
    requires forall o: ParsedHedTag | o in nested :: o !in seen2
    requires SortedTexts(hedSchemas, nested, seen2, tags, groups, strings, issues)
    requires splitIssues == SplitIssues(hedSchemas, RemoveGroupParentheses(x.splitTag))
    ensures SortedTexts(hedSchemas, [x], seen, tags, groups + [nested], strings + [x], splitIssues + issues)
  {
    GroupTagsPushed(x, nested, seen, seen2);
    GroupListsPushed(x, nested, groups);
    GroupStringsPushed(x, nested, strings);
    GroupIssuesPushed(hedSchemas, x, nested, issues, splitIssues);
  }

  /** The inside of a group split into new tags, as the group branch of
      `findTagGroups` does first. */
  method SplitGroup(tagOrGroup: ParsedHedTag, hedSchemas: Schemas)
    returns (nestedGroupTagList: seq<ParsedHedTag>, nestedGroupIssues: seq<Issue>)
    requires HedStringIsAGroup(tagOrGroup.originalTag)
    ensures SplitTags(nestedGroupTagList) == SplitTexts(RemoveGroupParentheses(tagOrGroup.originalTag))
    ensures nestedGroupIssues == SplitIssues(hedSchemas, RemoveGroupParentheses(tagOrGroup.originalTag))
    ensures forall o: ParsedHedTag | o in nestedGroupTagList :: fresh(o) && Unformatted(o) && Converted(o, hedSchemas)
    ensures NoDup(nestedGroupTagList) && AsSplit(nestedGroupTagList)
    ensures MaxLength(nestedGroupTagList) < |tagOrGroup.originalTag|
  {
    var tagGroupString := RemoveGroupParentheses(tagOrGroup.originalTag);
    nestedGroupTagList, nestedGroupIssues := SplitHedString(tagGroupString, hedSchemas);
    SplitTagsTexts(nestedGroupTagList, tagGroupString, hedSchemas);
    GroupLength(tagOrGroup.originalTag);
  }

  /** `findTagGroups`: every group of the list is split and sorted in turn
      (its nested groups first, then its own list and the group tag itself);
      every other tag is pushed onto `tags` unless already there. The issues of
      splitting the groups are returned. What is pushed follows the tag trees
      of the list's texts as they were split; the tags of the new group lists
      are new objects, not yet formatted. */
  method FindTagGroups(groupTagsList: seq<ParsedHedTag>, hedSchemas: Schemas, parsedString: ParsedHedString, ghost split: bool)
    returns (issues: seq<Issue>, ghost tagsAdded: seq<ParsedHedTag>, ghost groupsAdded: seq<seq<ParsedHedTag>>,
             ghost stringsAdded: seq<ParsedHedTag>, ghost created: seq<ParsedHedTag>)
    requires split ==> AsSplit(groupTagsList)
    modifies parsedString
    decreases MaxLength(groupTagsList), 1
    ensures parsedString.tags == old(parsedString.tags) + tagsAdded
    ensures parsedString.tagGroups == old(parsedString.tagGroups) + groupsAdded
    ensures parsedString.tagGroupStrings == old(parsedString.tagGroupStrings) + stringsAdded
    ensures parsedString.topLevelTags == old(parsedString.topLevelTags)
    ensures split ==>
      SortedTexts(hedSchemas, groupTagsList, old(parsedString.tags), tagsAdded, groupsAdded, stringsAdded, issues)
    ensures forall o: ParsedHedTag | o in created :: fresh(o) && Unformatted(o) && Converted(o, hedSchemas)
    ensures forall g, o: ParsedHedTag | g in groupsAdded && o in g :: o in created
    ensures forall o: ParsedHedTag | o in tagsAdded :: o in groupTagsList || o in created
    ensures NoDup(old(parsedString.tags)) ==> NoDup(parsedString.tags)
  {
    issues, tagsAdded, groupsAdded, stringsAdded, created := [], [], [], [], [];
    ghost var seen := parsedString.tags;
    for i := 0 to |groupTagsList|
      invariant parsedString.tags == seen + tagsAdded
      invariant parsedString.tagGroups == old(parsedString.tagGroups) + groupsAdded
      invariant parsedString.tagGroupStrings == old(parsedString.tagGroupStrings) + stringsAdded
      invariant parsedString.topLevelTags == old(parsedString.topLevelTags)
      invariant split ==> SortedTexts(hedSchemas, groupTagsList[..i], seen, tagsAdded, groupsAdded, stringsAdded, issues)
      invariant forall o: ParsedHedTag | o in created :: fresh(o) && Unformatted(o) && Converted(o, hedSchemas)
      invariant forall g, o: ParsedHedTag | g in groupsAdded && o in g :: o in created
      invariant forall o: ParsedHedTag | o in tagsAdded :: o in groupTagsList[..i] || o in created
      invariant NoDup(seen) ==> NoDup(parsedString.tags)
      invariant forall k | 0 <= k < i && !HedStringIsAGroup(groupTagsList[k].originalTag) :: groupTagsList[k] in parsedString.tags
    {
      var tagOrGroup := groupTagsList[i];
      assert groupTagsList[..i + 1] == groupTagsList[..i] + [tagOrGroup];
      assert split ==> tagOrGroup.originalTag == tagOrGroup.splitTag;
      if HedStringIsAGroup(tagOrGroup.originalTag) {
        ghost var seen2 := parsedString.tags;
        var groupIssues, tags2, groups2, strings2, created2 := FindTagGroup(tagOrGroup, hedSchemas, parsedString, split);
        if split {
          TextsGroupSnoc(hedSchemas, groupTagsList[..i], tagOrGroup, seen, seen2,
                         tagsAdded, groupsAdded, stringsAdded, issues, tags2, groups2, strings2, groupIssues);
        }
        AppendAssoc(seen, tagsAdded, tags2);
        AppendAssoc(old(parsedString.tagGroups), groupsAdded, groups2);
        AppendAssoc(old(parsedString.tagGroupStrings), stringsAdded, strings2);
        tagsAdded, groupsAdded, stringsAdded := tagsAdded + tags2, groupsAdded + groups2, stringsAdded + strings2;
        created := created + created2;
        issues := issues + groupIssues;
      } else {
        assert tagOrGroup !in created;
        ghost var pushed: seq<ParsedHedTag> := [];
        if tagOrGroup !in parsedString.tags {
          parsedString.tags := parsedString.tags + [tagOrGroup];
          pushed := [tagOrGroup];
        } else {
          assert tagOrGroup in seen || tagOrGroup in groupTagsList[..i];
        }
        if split {
          TextsLeafSnoc(hedSchemas, groupTagsList[..i], tagOrGroup, seen, tagsAdded, groupsAdded, stringsAdded, issues, pushed);
        }
        AppendAssoc(seen, tagsAdded, pushed);
        tagsAdded := tagsAdded + pushed;
      }
    }
    assert groupTagsList[..|groupTagsList|] == groupTagsList;
  }

  /** The group branch of `findTagGroups`: split the inside of the group, sort
      the split tags (recursively), then push the split list onto `tagGroups`
      and the group tag onto `tagGroupStrings`. */
  method FindTagGroup(tagOrGroup: ParsedHedTag, hedSchemas: Schemas, parsedString: ParsedHedString, ghost split: bool)
    returns (issues: seq<Issue>, ghost tagsAdded: seq<ParsedHedTag>, ghost groupsAdded: seq<seq<ParsedHedTag>>,
             ghost stringsAdded: seq<ParsedHedTag>, ghost created: seq<ParsedHedTag>)
    requires HedStringIsAGroup(tagOrGroup.originalTag)
    requires split ==> tagOrGroup.originalTag == tagOrGroup.splitTag
    modifies parsedString
    decreases |tagOrGroup.originalTag|, 0
    ensures parsedString.tags == old(parsedString.tags) + tagsAdded
    ensures parsedString.tagGroups == old(parsedString.tagGroups) + groupsAdded
    ensures parsedString.tagGroupStrings == old(parsedString.tagGroupStrings) + stringsAdded
    ensures parsedString.topLevelTags == old(parsedString.topLevelTags)
    ensures split ==>
      SortedTexts(hedSchemas, [tagOrGroup], old(parsedString.tags), tagsAdded, groupsAdded, stringsAdded, issues)
    ensures forall o: ParsedHedTag | o in created :: fresh(o) && Unformatted(o) && Converted(o, hedSchemas)
    ensures forall g, o: ParsedHedTag | g in groupsAdded && o in g :: o in created
    ensures forall o: ParsedHedTag | o in tagsAdded :: o in created
    ensures NoDup(old(parsedString.tags)) ==> NoDup(parsedString.tags)
  {
    ghost var seen := parsedString.tags;
    var nestedGroupTagList, nestedGroupIssues := SplitGroup(tagOrGroup, hedSchemas);
    var nestedIssues, tags2, groups2, strings2, created2 := FindTagGroups(nestedGroupTagList, hedSchemas, parsedString, true);
    parsedString.tagGroupStrings := parsedString.tagGroupStrings + [tagOrGroup];
    parsedString.tagGroups := parsedString.tagGroups + [nestedGroupTagList];
    issues := nestedGroupIssues + nestedIssues;
    tagsAdded, groupsAdded, stringsAdded := tags2, groups2 + [nestedGroupTagList], strings2 + [tagOrGroup];
    created := created2 + nestedGroupTagList;
    AppendAssoc(old(parsedString.tagGroups), groups2, [nestedGroupTagList]);
    AppendAssoc(old(parsedString.tagGroupStrings), strings2, [tagOrGroup]);
    if split {
      TextsGroup(hedSchemas, tagOrGroup, nestedGroupTagList, seen, seen, tags2, groups2, strings2, nestedIssues, nestedGroupIssues);
    }
  }

  // ---------------------------------------------------------------------------
  // formatHedTag, formatHedTagsInList
  // ---------------------------------------------------------------------------

  /** The formatted form of a canonical tag: trimmed, then one leading and one
      trailing double quote removed where present, then one leading and one
      trailing slash, then lower-cased. */
  function FormattedTag(canonicalTag: string): string {
    ToLower(DropSuffix(DropPrefix(DropSuffix(DropPrefix(Trim(canonicalTag), '"'), '"'), '/'), '/'))
  }

  /** `originalTag` after `n` formats: each replaces its first newline by a space. */
  function NewlinesReplaced(s: string, n: nat): string {
    if n == 0 then s else ReplaceFirst(NewlinesReplaced(s, n - 1), '\n', " ")
  }

  /** `formatHedTag`: the first newline of `originalTag` becomes a space, and
      `formattedTag` is set from the canonical tag. */
  method FormatHedTag(hedTag: ParsedHedTag)
    modifies hedTag
    ensures hedTag.originalTag == ReplaceFirst(old(hedTag.originalTag), '\n', " ")
    ensures hedTag.formattedTag == FormattedTag(hedTag.canonicalTag)
  {
    hedTag.originalTag := ReplaceFirst(hedTag.originalTag, '\n', " ");
    var hedTagString := Trim(hedTag.canonicalTag);
    hedTagString := DropPrefix(hedTagString, '"');
    hedTagString := DropSuffix(hedTagString, '"');
    hedTagString := DropPrefix(hedTagString, '/');
    hedTagString := DropSuffix(hedTagString, '/');
    hedTag.formattedTag := ToLower(hedTagString);
  }

  /** The character `DropPrefix` cut, if any. */
  lemma {:induction false} DropPrefixCut(s: string, c: char) returns (cut: string)
    ensures s == cut + DropPrefix(s, c) && (cut == [] || cut == [c])
  {
    cut := if s != [] && s[0] == c then [c] else [];
  }

  /** The character `DropSuffix` cut, if any. */
  lemma {:induction false} DropSuffixCut(s: string, c: char) returns (cut: string)
    ensures s == DropSuffix(s, c) + cut && (cut == [] || cut == [c])
  {
    cut := if s != [] && s[|s| - 1] == c then [c] else [];
  }

  /** The formatted tag is the trimmed canonical tag with at most a quote and
      then a slash cut from each end, lower-cased. */
  lemma {:induction false} FormattedTagShape(canonicalTag: string) returns (front: string, core: string, back: string)
    ensures Trim(canonicalTag) == front + core + back
    ensures front in {"", "\"", "/", "\"/"} && back in {"", "\"", "/", "/\""}
    ensures FormattedTag(canonicalTag) == ToLower(core)
  {
    var t := Trim(canonicalTag);
    var q1 := DropPrefixCut(t, '"');
    var a := DropPrefix(t, '"');
    var q2 := DropSuffixCut(a, '"');
    var b := DropSuffix(a, '"');
    var s1 := DropPrefixCut(b, '/');
    var c := DropPrefix(b, '/');
    var s2 := DropSuffixCut(c, '/');
    core := DropSuffix(c, '/');
    Regroup(q1, s1, core, s2, q2);
    front, back := q1 + s1, s2 + q2;
    CutPair(q1, s1, '"', '/');
    CutPair(q2, s2, '"', '/');
  }

  lemma Regroup(q1: string, s1: string, core: string, s2: string, q2: string)
    ensures q1 + ((s1 + (core + s2)) + q2) == (q1 + s1) + core + (s2 + q2)
  {
  }

  lemma CutPair(x: string, y: string, c: char, d: char)
    requires (x == [] || x == [c]) && (y == [] || y == [d])
    ensures x + y in {[], [c], [d], [c, d]} && y + x in {[], [c], [d], [d, c]}
  {
    if x == [] {
      assert x + y == y && y + x == y;
    } else if y == [] {
      assert x + y == x && y + x == x;
    } else {
      assert x + y == [c, d] && y + x == [d, c];
    }
  }

  /** Without quotes or slashes at its ends, a tag is only trimmed and lower-cased. */
  lemma {:induction false} FormattedPlainTag(canonicalTag: string)
    requires var t := Trim(canonicalTag);
      t != [] && t[0] != '"' && t[0] != '/' && t[|t| - 1] != '"' && t[|t| - 1] != '/'
    ensures FormattedTag(canonicalTag) == ToLower(Trim(canonicalTag))
  {
  }

  /** A quote and then a slash at each end are all cut. */
  lemma {:induction false} FormattedStrips(x: string)
    ensures FormattedTag("\"/" + x + "/\"") == ToLower(x)
  {
    var a := "\"/" + x + "/\"";
    assert IsTrimmed(a);
    TrimOfTrimmed(a);
    var b := "/" + x + "/\"";
    assert DropPrefix(a, '"') == b by {
      assert a == ['"'] + b;
    }
    var c := "/" + x + "/";
    assert DropSuffix(b, '"') == c by {
      assert b == c + ['"'];
    }
    var d := x + "/";
    assert DropPrefix(c, '/') == d by {
      assert c == ['/'] + d;
    }
    assert DropSuffix(d, '/') == x;
  }

  /** Only one slash is cut from each end. */
  lemma {:induction false} FormattedStripsOneSlash(x: string)
    ensures FormattedTag("//" + x + "//") == ToLower("/" + x + "/")
  {
    var a := "//" + x + "//";
    assert IsTrimmed(a);
    TrimOfTrimmed(a);
    assert DropPrefix(a, '"') == a;
    assert DropSuffix(a, '"') == a;
    var b := "/" + x + "//";
    assert DropPrefix(a, '/') == b by {
      assert a == ['/'] + b;
    }
    assert DropSuffix(b, '/') == "/" + x + "/" by {
      assert b == ("/" + x + "/") + ['/'];
    }
  }

  /** The formatted tag has no upper-case ASCII letter. */
  lemma {:induction false} FormattedLowerCase(canonicalTag: string)
    ensures forall k | 0 <= k < |FormattedTag(canonicalTag)| :: !('A' <= FormattedTag(canonicalTag)[k] <= 'Z')
  {
    ToLowerAt(DropSuffix(DropPrefix(DropSuffix(DropPrefix(Trim(canonicalTag), '"'), '"'), '/'), '/'));
  }

  lemma NewlinesNext(s: string, n: nat)
    ensures NewlinesReplaced(s, n + 1) == ReplaceFirst(NewlinesReplaced(s, n), '\n', " ")
  {
  }

  /** Formats compose: `m` of them, then `n` more, are `m + n`. */
  lemma {:induction false} NewlinesCompose(s: string, m: nat, n: nat)
    ensures NewlinesReplaced(NewlinesReplaced(s, m), n) == NewlinesReplaced(s, m + n)
  {
    if n > 0 {
      NewlinesCompose(s, m, n - 1);
      var before := NewlinesReplaced(NewlinesReplaced(s, m), n - 1);
      assert before == NewlinesReplaced(s, m + (n - 1));
      assert NewlinesReplaced(NewlinesReplaced(s, m), n) == ReplaceFirst(before, '\n', " ");
      assert NewlinesReplaced(s, m + n) == ReplaceFirst(NewlinesReplaced(s, m + (n - 1)), '\n', " ");
    }
  }

  /** One format replaces one newline, if there is any, and keeps the length. */
  lemma {:induction false} ReplaceNewlineCount(t: string)
    ensures |ReplaceFirst(t, '\n', " ")| == |t|
    ensures CountChar(ReplaceFirst(t, '\n', " "), '\n') == if CountChar(t, '\n') == 0 then 0 else CountChar(t, '\n') - 1
  {
    var k := IndexOf(t, '\n');
    if k < 0 {
      CountCharZero(t, '\n');
    } else {
      var rest := t[k + 1..];
      assert t == t[..k] + ([t[k]] + rest);
      CountCharAppend(t[..k], [t[k]] + rest, '\n');
      CountCharAppend([t[k]], rest, '\n');
      CountCharAppend(t[..k] + " ", rest, '\n');
      CountCharAppend(t[..k], " ", '\n');
      assert [t[k]][..0] == [] && " "[..0] == [];
    }
  }

  /** Each format replaces one newline while any is left; the length never changes. */
  lemma {:induction false} NewlinesCount(s: string, n: nat)
    ensures |NewlinesReplaced(s, n)| == |s|
    ensures CountChar(NewlinesReplaced(s, n), '\n') == if n <= CountChar(s, '\n') then CountChar(s, '\n') - n else 0
  {
    if n > 0 {
      NewlinesCount(s, n - 1);
      ReplaceNewlineCount(NewlinesReplaced(s, n - 1));
    }
  }

  /** Only the first newline goes per format. */
  lemma FirstNewlineOnly()
    ensures NewlinesReplaced("a\nb\n", 1) == "a b\n"
    ensures NewlinesReplaced("a\nb\n", 2) == "a b "
  {
    assert IndexOf("a\nb\n", '\n') == 1;
    assert IndexOf("a b\n", '\n') == 3;
  }

  /** `formatHedTagsInList` on a list of tags. Of the tags of `others`, those
      whose newlines were replaced once for each of their occurrences in
      `before` have them replaced once for each occurrence in `before` and the
      list together; those occurring in either are formatted. */
  method FormatHedTagsInList(hedTagList: seq<ParsedHedTag>, ghost before: seq<ParsedHedTag>, ghost others: seq<ParsedHedTag>)
    requires forall o: ParsedHedTag | o in others :: o.originalTag == NewlinesReplaced(o.splitTag, Occurrences(before, o))
    requires forall o: ParsedHedTag | o in others && o in before :: o.formattedTag == FormattedTag(o.canonicalTag)
    modifies set o | o in hedTagList
    ensures forall o: ParsedHedTag | o in others :: o.originalTag == NewlinesReplaced(o.splitTag, Occurrences(before + hedTagList, o))
    ensures forall o: ParsedHedTag | o in others && o in before + hedTagList :: o.formattedTag == FormattedTag(o.canonicalTag)
  {
    assert before + hedTagList[..0] == before;
    for i := 0 to |hedTagList|
      invariant forall o: ParsedHedTag | o in others :: o.originalTag == NewlinesReplaced(o.splitTag, Occurrences(before + hedTagList[..i], o))
      invariant forall o: ParsedHedTag | o in others && o in before + hedTagList[..i] :: o.formattedTag == FormattedTag(o.canonicalTag)
    {
      var hedTag := hedTagList[i];
      ghost var done := before + hedTagList[..i];
      assert before + hedTagList[..i + 1] == done + [hedTag] by {
        assert hedTagList[..i + 1] == hedTagList[..i] + [hedTag];
        AppendAssoc(before, hedTagList[..i], [hedTag]);
      }
      FormatCounted(hedTag, done, others);
    }
    assert hedTagList[..|hedTagList|] == hedTagList;
  }

  /** One call of `formatHedTag` in the loop: the count of `hedTag` grows by one. */
  method FormatCounted(hedTag: ParsedHedTag, ghost done: seq<ParsedHedTag>, ghost others: seq<ParsedHedTag>)
    requires forall o: ParsedHedTag | o in others :: o.originalTag == NewlinesReplaced(o.splitTag, Occurrences(done, o))
    requires forall o: ParsedHedTag | o in others && o in done :: o.formattedTag == FormattedTag(o.canonicalTag)
    modifies hedTag
    ensures forall o: ParsedHedTag | o in others :: o.originalTag == NewlinesReplaced(o.splitTag, Occurrences(done + [hedTag], o))
    ensures forall o: ParsedHedTag | o in others && o in done + [hedTag] :: o.formattedTag == FormattedTag(o.canonicalTag)
  {
    ghost var n := Occurrences(done, hedTag);
    FormatHedTag(hedTag);
    OccurrencesSnoc(done, hedTag, hedTag);
    NewlinesNext(hedTag.splitTag, n);
    forall o: ParsedHedTag | o in others && o != hedTag
      ensures o.originalTag == NewlinesReplaced(o.splitTag, Occurrences(done + [hedTag], o))
    {
      OccurrencesSnoc(done, hedTag, o);
    }
    forall o: ParsedHedTag | o in others && o in done + [hedTag] && o != hedTag
      ensures o.formattedTag == FormattedTag(o.canonicalTag)
    {
      assert o in done;
    }
  }

  /** A tag of the concatenation comes from one of the lists. */
  lemma {:induction false} ConcatMember(groups: seq<seq<ParsedHedTag>>, o: ParsedHedTag) returns (g: seq<ParsedHedTag>)
    requires o in Concat(groups)
    ensures g in groups && o in g
  {
    var init := groups[..|groups| - 1];
    if o in Concat(init) {
      g := ConcatMember(init, o);
    } else {
      g := groups[|groups| - 1];
    }
  }

  /** Every tag of every list is in the concatenation. */
  lemma {:induction false} ConcatHas(groups: seq<seq<ParsedHedTag>>, g: seq<ParsedHedTag>, o: ParsedHedTag)
    requires g in groups && o in g
    ensures o in Concat(groups)
  {
    if g != groups[|groups| - 1] {
      ConcatHas(groups[..|groups| - 1], g, o);
    }
  }

  /** `formatHedTagsInList` on the lists of `tagGroups`, one after the other:
      the same as formatting their concatenation. */
  method FormatHedTagGroups(tagGroups: seq<seq<ParsedHedTag>>, ghost before: seq<ParsedHedTag>, ghost others: seq<ParsedHedTag>)
    requires forall o: ParsedHedTag | o in others :: o.originalTag == NewlinesReplaced(o.splitTag, Occurrences(before, o))
    requires forall o: ParsedHedTag | o in others && o in before :: o.formattedTag == FormattedTag(o.canonicalTag)
    modifies set g, o | g in tagGroups && o in g :: o
    ensures forall o: ParsedHedTag | o in others ::
      o.originalTag == NewlinesReplaced(o.splitTag, Occurrences(before + Concat(tagGroups), o))
    ensures forall o: ParsedHedTag | o in others && o in before + Concat(tagGroups) :: o.formattedTag == FormattedTag(o.canonicalTag)
  {
    assert before + Concat(tagGroups[..0]) == before;
    for i := 0 to |tagGroups|
      invariant forall o: ParsedHedTag | o in others ::
        o.originalTag == NewlinesReplaced(o.splitTag, Occurrences(before + Concat(tagGroups[..i]), o))
      invariant forall o: ParsedHedTag | o in others && o in before + Concat(tagGroups[..i]) :: o.formattedTag == FormattedTag(o.canonicalTag)
    {
      var hedTagList := tagGroups[i];
      ghost var done := before + Concat(tagGroups[..i]);
      assert before + Concat(tagGroups[..i + 1]) == done + hedTagList by {
        assert tagGroups[..i + 1][..i] == tagGroups[..i];
        AppendAssoc(before, Concat(tagGroups[..i]), hedTagList);
      }
      FormatHedTagsInList(hedTagList, done, others);
    }
    assert tagGroups[..|tagGroups|] == tagGroups;
  }

  // ---------------------------------------------------------------------------
  // parseHedString
  // ---------------------------------------------------------------------------

  /** One tag's node is a first-level leaf exactly when the tag is not a group. */
  lemma {:induction false} TopLeavesOne(x: ParsedHedTag)
    ensures TopLeaves([NodeOf(x.splitTag)]) == SplitTags(if HedStringIsAGroup(x.splitTag) then [] else [x])
  {
    var n := NodeOf(x.splitTag);
    assert [n][1..] == [];
    assert TopLeaves([n]) == (if n.Leaf? then [n.text] else []) + TopLeaves([]);
    assert [x][..0] == [];
    assert SplitTags([x]) == SplitTags([]) + [x.splitTag];
  }

  /** The top-level tags of a list that still carries its split texts are the
      first-level leaves of its tree. */
  lemma {:induction false} TopLevelTexts(list: seq<ParsedHedTag>)
    requires AsSplit(list)
    ensures SplitTags(NonGroups(list)) == TopLeaves(ItemNodes(list))
  {
    if list != [] {
      var init := list[..|list| - 1];
      var last := list[|list| - 1];
      assert forall o: ParsedHedTag | o in init :: o in list;
      TopLevelTexts(init);
      var here: seq<ParsedHedTag> := if HedStringIsAGroup(last.splitTag) then [] else [last];
      assert NonGroups(list) == NonGroups(init) + here;
      SplitTagsAppend(NonGroups(init), here);
      TopLeavesAppend(ItemNodes(init), [NodeOf(last.splitTag)]);
      TopLeavesOne(last);
    }
  }

  /** The top-level tags of a list without repeats have none either. */
  lemma {:induction false} NonGroupsNoDup(list: seq<ParsedHedTag>)
    requires NoDup(list)
    ensures NoDup(NonGroups(list))
  {
    if list != [] {
      var init := list[..|list| - 1];
      var last := list[|list| - 1];
      assert NoDup(init) by {
        forall j, k | 0 <= j < k < |init|
          ensures init[j] != init[k]
        {
          assert init[j] == list[j] && init[k] == list[k];
        }
      }
      NonGroupsNoDup(init);
      if !HedStringIsAGroup(last.originalTag) {
        NonGroupsMembers(init, last);
        assert last !in init by {
          forall j | 0 <= j < |init|
            ensures init[j] != last
          {
            assert init[j] == list[j];
          }
        }
        NoDupSnoc(NonGroups(init), last);
      }
    }
  }

  /** Once every non-group tag of the list is seen, only the tags below its
      groups are pushed. */
  lemma {:induction false} GroupFlatSeen(list: seq<ParsedHedTag>, seen: seq<ParsedHedTag>)
    requires forall o: ParsedHedTag | o in list && !HedStringIsAGroup(o.splitTag) :: o in seen
    ensures GroupFlat(list, seen) == NestedFlat(ItemNodes(list))
  {
    if list != [] {
      var init := list[..|list| - 1];
      var last := list[|list| - 1];
      assert forall o: ParsedHedTag | o in init :: o in list;
      GroupFlatSeen(init, seen);
      NestedFlatAppend(ItemNodes(init), [NodeOf(last.splitTag)]);
      assert [NodeOf(last.splitTag)][1..] == [];
    }
  }

  /** What sorting leaves in a parsed string, as texts, for a tag tree: the
      top-level tags are the first-level leaves; `tags` holds those and then
      the leaves below each group, each object once; `tagGroups` and
      `tagGroupStrings` hold one entry per group at any depth, nested groups
      first. */
  ghost predicate SortedNodes(tree: seq<Node>, parsedString: ParsedHedString)
    reads parsedString
  {
    SortedLists(tree, parsedString.topLevelTags, parsedString.tags, parsedString.tagGroups, parsedString.tagGroupStrings)
  }

  /** `SortedNodes` on the four lists themselves. */
  ghost predicate SortedLists(tree: seq<Node>, topLevelTags: seq<ParsedHedTag>, tags: seq<ParsedHedTag>,
                              tagGroups: seq<seq<ParsedHedTag>>, tagGroupStrings: seq<ParsedHedTag>)
  {
    && SplitTags(topLevelTags) == TopLeaves(tree)
    && SplitTags(tags) == TopLeaves(tree) + NestedFlat(tree)
    && NoDup(tags)
    && topLevelTags <= tags
    && ListsTexts(tagGroups) == GroupLists(tree)
    && SplitTags(tagGroupStrings) == GroupStrings(tree)
  }

  /** What `parseHedString` leaves in a parsed string: the sorting of the
      string's tree, and the issues of splitting the string followed by those
      of splitting every group. */
  ghost predicate SortedAs(hedSchemas: Schemas, hedString: string, parsedString: ParsedHedString, issues: seq<Issue>)
    reads parsedString
  {
    && SortedNodes(Parse(hedString), parsedString)
    && issues == SplitIssues(hedSchemas, hedString) + GroupIssues(hedSchemas, Parse(hedString))
  }

  /** The texts of the sorting steps put together. */
  lemma {:induction false} SortedParts(hedSchemas: Schemas, list: seq<ParsedHedTag>,
                                       top: seq<ParsedHedTag>, tagsAdded: seq<ParsedHedTag>,
                                       groupsAdded: seq<seq<ParsedHedTag>>, stringsAdded: seq<ParsedHedTag>,
                                       groupIssues: seq<Issue>)
    requires SplitTags(top) == TopLeaves(ItemNodes(list))
    requires forall o: ParsedHedTag | o in list && !HedStringIsAGroup(o.splitTag) :: o in top
    requires SortedTexts(hedSchemas, list, top, tagsAdded, groupsAdded, stringsAdded, groupIssues)
    requires NoDup(top + tagsAdded)
    ensures SortedLists(ItemNodes(list), top, top + tagsAdded, groupsAdded, stringsAdded)
    ensures groupIssues == GroupIssues(hedSchemas, ItemNodes(list))
  {
    GroupFlatSeen(list, top);
    SplitTagsAppend(top, tagsAdded);
    PrefixOfAppend(top, tagsAdded);
  }

  lemma PrefixOfAppend<T>(a: seq<T>, b: seq<T>)
    ensures a <= a + b
  {
    assert (a + b)[..|a|] == a;
  }

  /** `findTopLevelTags` and then `findTagGroups` on the split tags of a
      string, into an empty parsed string. */
  method SortTags(hedTagList: seq<ParsedHedTag>, hedSchemas: Schemas, parsedString: ParsedHedString)
    returns (tagGroupIssues: seq<Issue>)
    requires parsedString.tags == [] && parsedString.tagGroups == []
    requires parsedString.tagGroupStrings == [] && parsedString.topLevelTags == []
    requires AsSplit(hedTagList) && NoDup(hedTagList)
    requires forall o: ParsedHedTag | o in hedTagList :: Unformatted(o) && Converted(o, hedSchemas)
    modifies parsedString
    ensures SortedNodes(ItemNodes(hedTagList), parsedString)
    ensures tagGroupIssues == GroupIssues(hedSchemas, ItemNodes(hedTagList))
    ensures forall o: ParsedHedTag | o in parsedString.tags :: (o in hedTagList || fresh(o)) && Unformatted(o) && Converted(o, hedSchemas)
    ensures forall g, o: ParsedHedTag | g in parsedString.tagGroups && o in g :: fresh(o) && Unformatted(o) && Converted(o, hedSchemas)
  {
    var topLevelTags := FindTopLevelTags(hedTagList, hedSchemas, parsedString);
    TopLevelFacts(hedTagList, topLevelTags);
    parsedString.topLevelTags := topLevelTags;
    assert parsedString.tags == topLevelTags && parsedString.tagGroups == [] && parsedString.tagGroupStrings == [];
    assert forall o: ParsedHedTag | o in hedTagList :: Unformatted(o);
    ghost var tagsAdded, groupsAdded, stringsAdded, created;
    tagGroupIssues, tagsAdded, groupsAdded, stringsAdded, created := FindTagGroups(hedTagList, hedSchemas, parsedString, true);
    assert forall o: ParsedHedTag | o in hedTagList :: Unformatted(o);
    assert [] + groupsAdded == groupsAdded && [] + stringsAdded == stringsAdded;
    SortedParts(hedSchemas, hedTagList, topLevelTags, tagsAdded, groupsAdded, stringsAdded, tagGroupIssues);
    TagsFrom(hedTagList, topLevelTags, tagsAdded, created);
    forall o: ParsedHedTag | o in parsedString.tags
      ensures (o in hedTagList || fresh(o)) && Unformatted(o) && Converted(o, hedSchemas)
    {
      if o !in hedTagList {
        assert o in created;
      }
    }
  }

  /** What `findTopLevelTags` returns for a list that still carries its split
      texts: no repeats, the first-level leaves of its tree, and exactly its
      non-group tags. */
  lemma {:induction false} TopLevelFacts(list: seq<ParsedHedTag>, top: seq<ParsedHedTag>)
    requires AsSplit(list) && NoDup(list) && top == NonGroups(list)
    ensures NoDup(top) && PushAbsent([], top) == top
    ensures SplitTags(top) == TopLeaves(ItemNodes(list))
    ensures forall o: ParsedHedTag | o in list && !HedStringIsAGroup(o.splitTag) :: o in top
    ensures forall o: ParsedHedTag | o in top :: o in list
  {
    NonGroupsNoDup(list);
    PushAbsentFresh([], top);
    assert [] + top == top;
    TopLevelTexts(list);
    forall o: ParsedHedTag | o in list && !HedStringIsAGroup(o.splitTag)
      ensures o in top
    {
      NonGroupsMembers(list, o);
    }
    forall o: ParsedHedTag | o in top
      ensures o in list
    {
      NonGroupsMembers(list, o);
    }
  }

  /** Every tag sorted into `tags` is one of the list's or a new one. */
  lemma {:induction false} TagsFrom(list: seq<ParsedHedTag>, top: seq<ParsedHedTag>,
                                    tagsAdded: seq<ParsedHedTag>, created: seq<ParsedHedTag>)
    requires forall o: ParsedHedTag | o in top :: o in list
    requires forall o: ParsedHedTag | o in tagsAdded :: o in list || o in created
    ensures forall o: ParsedHedTag | o in top + tagsAdded :: o in list || o in created
  {
  }

  /** The sorting half of `parseHedString`: split the string, then find the
      top-level tags and the groups. Every tag object it leaves in `tags` and
      `tagGroups` is new, unformatted, and converted by the schemas. */
  method SortHedString(hedString: string, hedSchemas: Schemas) returns (parsedString: ParsedHedString, issues: seq<Issue>)
    ensures fresh(parsedString) && parsedString.hedString == hedString
    ensures SortedAs(hedSchemas, hedString, parsedString, issues)
    ensures forall o: ParsedHedTag | o in parsedString.tags :: fresh(o) && Unformatted(o) && Converted(o, hedSchemas)
    ensures forall g, o: ParsedHedTag | g in parsedString.tagGroups && o in g :: fresh(o) && Unformatted(o) && Converted(o, hedSchemas)
  {
    parsedString := new ParsedHedString(hedString);
    var hedTagList, splitIssues := SplitHedString(hedString, hedSchemas);
    SplitTagsTexts(hedTagList, hedString, hedSchemas);
    var tagGroupIssues := SortTags(hedTagList, hedSchemas, parsedString);
    issues := splitIssues + tagGroupIssues;
    ItemNodesOfSplit(hedTagList, hedString);
  }

  /** How many times `parseHedString` formats a tag: once for each of its
      occurrences in `tags`, in the lists of `tagGroups`, and in `topLevelTags`. */
  ghost function Uses(parsedString: ParsedHedString, o: ParsedHedTag): nat
    reads parsedString
  {
    Occurrences(parsedString.tags + Concat(parsedString.tagGroups) + parsedString.topLevelTags, o)
  }

  lemma {:induction false} PrefixMembers<T>(a: seq<T>, b: seq<T>)
    requires a <= b
    ensures forall x | x in a :: x in b
  {
    forall x | x in a
      ensures x in b
    {
      var k :| 0 <= k < |a| && a[k] == x;
      assert b[k] == x;
    }
  }

  /** Every tag of every list is in the concatenation. */
  lemma {:induction false} ConcatHasAll(groups: seq<seq<ParsedHedTag>>)
    ensures forall g, o: ParsedHedTag | g in groups && o in g :: o in Concat(groups)
  {
    forall g, o: ParsedHedTag | g in groups && o in g
      ensures o in Concat(groups)
    {
      ConcatHas(groups, g, o);
    }
  }

  /** The formatting half of `parseHedString`: `tags`, then `tagGroups`, then
      `topLevelTags` are formatted, so a tag of `tags` or of a list of
      `tagGroups` ends up formatted once for each of its occurrences in the three. */
  method FormatParsedString(tags: seq<ParsedHedTag>, tagGroups: seq<seq<ParsedHedTag>>, topLevelTags: seq<ParsedHedTag>)
    requires topLevelTags <= tags
    requires forall o: ParsedHedTag | o in tags + Concat(tagGroups) :: Unformatted(o)
    modifies set o | o in tags + Concat(tagGroups)
    ensures forall o: ParsedHedTag | o in tags + Concat(tagGroups) :: o.formattedTag == FormattedTag(o.canonicalTag)
    ensures forall o: ParsedHedTag | o in tags + Concat(tagGroups) ::
      o.originalTag == NewlinesReplaced(o.splitTag, Occurrences(tags + Concat(tagGroups) + topLevelTags, o))
  {
    ConcatHasAll(tagGroups);
    assert [] + tags == tags;
    FormatHedTagsInList(tags, [], tags + Concat(tagGroups));
    FormatHedTagGroups(tagGroups, tags, tags + Concat(tagGroups));
    PrefixMembers(topLevelTags, tags);
    FormatHedTagsInList(topLevelTags, tags + Concat(tagGroups), tags + Concat(tagGroups));
  }

  /** `parseHedString`: the string is split and sorted, then `tags`,
      `tagGroups` and `topLevelTags` are formatted in that order; the issues
      are those of splitting the string followed by those of its groups. */
  method ParseHedString(hedString: string, hedSchemas: Schemas) returns (parsedString: ParsedHedString, issues: seq<Issue>)
    ensures fresh(parsedString) && parsedString.hedString == hedString
    ensures SortedAs(hedSchemas, hedString, parsedString, issues)
    ensures forall o: ParsedHedTag | o in parsedString.tags :: Converted(o, hedSchemas)
    ensures forall o: ParsedHedTag | o in parsedString.tags :: o.formattedTag == FormattedTag(o.canonicalTag)
    ensures forall o: ParsedHedTag | o in parsedString.tags :: o.originalTag == NewlinesReplaced(o.splitTag, Uses(parsedString, o))
    ensures forall g, o: ParsedHedTag | g in parsedString.tagGroups && o in g :: Converted(o, hedSchemas)
    ensures forall g, o: ParsedHedTag | g in parsedString.tagGroups && o in g :: o.formattedTag == FormattedTag(o.canonicalTag)
    ensures forall g, o: ParsedHedTag | g in parsedString.tagGroups && o in g ::
      o.originalTag == NewlinesReplaced(o.splitTag, Uses(parsedString, o))
  {
    parsedString, issues := SortHedString(hedString, hedSchemas);
    ghost var all := parsedString.tags + Concat(parsedString.tagGroups);
    forall o: ParsedHedTag | o in all
      ensures fresh(o) && Unformatted(o)
    {
      if o !in parsedString.tags {
        var g := ConcatMember(parsedString.tagGroups, o);
      }
    }
    ConcatHasAll(parsedString.tagGroups);
    FormatParsedString(parsedString.tags, parsedString.tagGroups, parsedString.topLevelTags);
  }
}
