/**
 * Validation of the HED data of a BIDS TSV file (the validator half of the
 * TSV validator).  Validation runs in stages (sidecar, HED column, row
 * assembly and parsing, dataset checks) and stops after the first stage that
 * leaves errors.  The dataset checks look for top-level tags out of place,
 * then either check the temporal structure (timeline files) or forbid
 * temporal tags.
 *
 * The HED string parser, the sidecar's own validation, the definition checks,
 * the reserved-tag lookups and the event manager are collaborators outside
 * this model; they are the fields of `Collaborators`.
 */
module TsvValidator {
  import opened Wrappers
  import opened JsStrings
  import opened TsvParser

  /** A BIDS TSV file with its merged sidecar and the strings of its `HED`
      column. */
  datatype TsvFile = TsvFile(parsedTsv: seq<Column>, sidecar: Sidecar,
                             hedColumnHedStrings: seq<string>, isTimelineFile: bool)

  /** An element as the dataset checks see it. */
  datatype ElementView = ElementView(hedString: string, tsvLine: nat, onset: Option<string>,
                                     parsed: Option<ParsedString>)

  function View(e: TsvElement): ElementView
    reads e
  {
    ElementView(e.hedString, e.tsvLine, e.onset, e.parsedHedString)
  }

  function Views(elements: seq<TsvElement>): (r: seq<ElementView>)
    reads set e | e in elements
    ensures |r| == |elements|
    ensures forall k | 0 <= k < |elements| :: r[k] == View(elements[k])
  {
    seq(|elements|, k requires 0 <= k < |elements| reads elements => View(elements[k]))
  }

  /** The collaborators, with the schemas already applied: the HED string
      parser, the issues of the sidecar's own validation, the definition
      checks, the top-level-tag-group attribute, the names of the timeline
      tags, and the event manager's two passes. */
  datatype Collaborators<!Event> = Collaborators(
    parseHedString: string -> ParseResult,
    sidecarIssues: seq<Issue>,
    validateDefs: ParsedString -> seq<Issue>,
    validateDefExpands: ParsedString -> seq<Issue>,
    hasTopLevelTagGroupAttribute: string -> bool,
    timelineTags: set<string>,
    parseEvents: seq<ElementView> -> (seq<Event>, seq<Issue>),
    validateEvents: seq<Event> -> seq<Issue>)

  /** The parser returns no parsed string only together with an error. */
  ghost predicate ParserReportsFailures(parse: string -> ParseResult) {
    forall s :: parse(s).parsed.None? ==> parse(s).errors != []
  }

  // ---------------------------------------------------------------------------
  // Issues by severity
  // ---------------------------------------------------------------------------

  /** `BidsHedIssue.splitErrors`: the errors and the warnings, each in order. */
  function SplitErrors(issues: seq<Issue>): (seq<Issue>, seq<Issue>) {
    if issues == [] then ([], [])
    else
      var split := SplitErrors(issues[..|issues| - 1]);
      var issue := issues[|issues| - 1];
      if issue.severity == Error then (split.0 + [issue], split.1) else (split.0, split.1 + [issue])
  }

  /** Every issue lands in exactly the list of its severity. */
  lemma {:induction false} SplitErrorsPartition(issues: seq<Issue>)
    ensures var split := SplitErrors(issues);
      |split.0| + |split.1| == |issues|
      && (forall i | i in split.0 :: i.severity == Error && i in issues)
      && (forall i | i in split.1 :: i.severity == Warning && i in issues)
      && (forall i | i in issues :: i in split.0 || i in split.1)
  {
    if issues != [] {
      var init := issues[..|issues| - 1];
      SplitErrorsPartition(init);
      assert issues == init + [issues[|issues| - 1]];
    }
  }

  // ---------------------------------------------------------------------------
  // The HED column
  // ---------------------------------------------------------------------------

  function CurlyBraces(hedString: string): Issue {
    Issue("curlyBracesInHedColumn", Error, hedString)
  }

  /** `_validateHedColumnString`: the errors and warnings one string of the
      `HED` column adds. */
  function HedColumnStringIssues<Event>(hedString: string, env: Collaborators<Event>): (r: (seq<Issue>, seq<Issue>))
    ensures hedString == "" ==> r == ([], [])
    ensures hedString != "" ==> r.1 == env.parseHedString(hedString).warnings
  {
    if hedString == "" then ([], [])
    else
      var result := env.parseHedString(hedString);
      match result.parsed
      case None => (result.errors, result.warnings)
      case Some(parsed) =>
        if parsed.columnSplices != [] then (result.errors + [CurlyBraces(parsed.hedString)], result.warnings)
        else (result.errors + env.validateDefs(parsed) + env.validateDefExpands(parsed), result.warnings)
  }

  /** A parsed string with column splices adds exactly one
      `curlyBracesInHedColumn` after the parser's errors, and no definition
      issue; one without splices adds the definition issues. */
  lemma HedColumnSplices<Event>(hedString: string, env: Collaborators<Event>)
    requires hedString != "" && env.parseHedString(hedString).parsed.Some?
    ensures var result := env.parseHedString(hedString);
      var parsed := result.parsed.value;
      HedColumnStringIssues(hedString, env).0
        == result.errors + (if parsed.columnSplices != [] then [CurlyBraces(parsed.hedString)]
                            else env.validateDefs(parsed) + env.validateDefExpands(parsed))
  {
  }

  /** `_validateHedColumn`: the issues of every string of the column, in order. */
  function HedColumnIssues<Event>(strings: seq<string>, env: Collaborators<Event>): (seq<Issue>, seq<Issue>) {
    if strings == [] then ([], [])
    else
      var done := HedColumnIssues(strings[..|strings| - 1], env);
      var more := HedColumnStringIssues(strings[|strings| - 1], env);
      (done.0 + more.0, done.1 + more.1)
  }

  /** Empty cells of the `HED` column never produce an issue. */
  lemma {:induction false} HedColumnBlank<Event>(strings: seq<string>, env: Collaborators<Event>)
    requires forall k | 0 <= k < |strings| :: strings[k] == ""
    ensures HedColumnIssues(strings, env) == ([], [])
  {
    if strings != [] {
      HedColumnBlank(strings[..|strings| - 1], env);
    }
  }

  // ---------------------------------------------------------------------------
  // Flagged elements: top-level tags and temporal tags
  // ---------------------------------------------------------------------------

  /** One issue with `code` for every element `flag` holds of, in order. */
  function Flagged(views: seq<ElementView>, flag: ElementView -> bool, code: string): seq<Issue> {
    if views == [] then []
    else
      var v := views[|views| - 1];
      Flagged(views[..|views| - 1], flag, code) + (if flag(v) then [Issue(code, Error, v.hedString)] else [])
  }

  /** An issue is reported exactly for the flagged elements, one each. */
  lemma {:induction false} FlaggedMembers(views: seq<ElementView>, flag: ElementView -> bool, code: string, issue: Issue)
    ensures issue in Flagged(views, flag, code)
        <==> exists k | 0 <= k < |views| :: flag(views[k]) && issue == Issue(code, Error, views[k].hedString)
  {
    if views != [] {
      var init := views[..|views| - 1];
      FlaggedMembers(init, flag, code, issue);
      assert forall k | 0 <= k < |init| :: views[k] == init[k];
      if exists k | 0 <= k < |views| :: flag(views[k]) && issue == Issue(code, Error, views[k].hedString) {
        var k :| 0 <= k < |views| && flag(views[k]) && issue == Issue(code, Error, views[k].hedString);
        if k < |init| {
          assert init[k] == views[k];
        }
      }
    }
  }

  lemma {:induction false} FlaggedCount(views: seq<ElementView>, flag: ElementView -> bool, code: string)
    ensures |Flagged(views, flag, code)| <= |views|
    ensures (forall k | 0 <= k < |views| :: !flag(views[k])) <==> Flagged(views, flag, code) == []
  {
    if views != [] {
      var init := views[..|views| - 1];
      FlaggedCount(init, flag, code);
      assert forall k | 0 <= k < |init| :: views[k] == init[k];
    }
  }

  /** `topTags.filter(hasTopLevelTagGroupAttribute)`. */
  function BadTags(tags: seq<string>, hasAttribute: string -> bool): (r: seq<string>)
    ensures forall t | t in r :: t in tags && hasAttribute(t)
    ensures forall t | t in tags && hasAttribute(t) :: t in r
  {
    if tags == [] then []
    else BadTags(tags[..|tags| - 1], hasAttribute) + (if hasAttribute(tags[|tags| - 1]) then [tags[|tags| - 1]] else [])
  }

  /** An element whose parsed string has a top-level tag that may only appear
      in a top-level tag group. */
  predicate HasBadTopTag<Event>(v: ElementView, env: Collaborators<Event>) {
    v.parsed.Some? && exists t | t in v.parsed.value.topLevelTagNames :: env.hasTopLevelTagGroupAttribute(t)
  }

  /** `_checkNoTopTags`. */
  function TopTagErrors<Event>(views: seq<ElementView>, env: Collaborators<Event>): seq<Issue> {
    Flagged(views, v => HasBadTopTag(v, env), "invalidTopLevelTag")
  }

  /** An element whose parsed string has a timeline tag. */
  predicate HasTemporalTag<Event>(v: ElementView, env: Collaborators<Event>) {
    v.parsed.Some? && exists t | t in v.parsed.value.tagNames :: t in env.timelineTags
  }

  /** `_checkNoTime`. */
  function NoTimeErrors<Event>(views: seq<ElementView>, env: Collaborators<Event>): seq<Issue> {
    Flagged(views, v => HasTemporalTag(v, env), "temporalTagInNonTemporalContext")
  }

  lemma TopTagErrorsSnoc<Event>(views: seq<ElementView>, v: ElementView, env: Collaborators<Event>)
    ensures TopTagErrors(views + [v], env)
         == TopTagErrors(views, env) + (if HasBadTopTag(v, env) then [Issue("invalidTopLevelTag", Error, v.hedString)] else [])
  {
    assert (views + [v])[..|views|] == views;
  }

  lemma NoTimeErrorsSnoc<Event>(views: seq<ElementView>, v: ElementView, env: Collaborators<Event>)
    ensures NoTimeErrors(views + [v], env)
         == NoTimeErrors(views, env) + (if HasTemporalTag(v, env) then [Issue("temporalTagInNonTemporalContext", Error, v.hedString)] else [])
  {
    assert (views + [v])[..|views|] == views;
  }

  // ---------------------------------------------------------------------------
  // Onsets
  // ---------------------------------------------------------------------------

  /** The onset and HED string of each element view. */
  function KeyedViews(views: seq<ElementView>): (r: seq<(Option<string>, string)>)
    ensures |r| == |views|
    ensures forall k | 0 <= k < |views| :: r[k] == (views[k].onset, views[k].hedString)
  {
    seq(|views|, k requires 0 <= k < |views| => (views[k].onset, views[k].hedString))
  }

  /** The onset and HED string of each element. */
  function Keyed(elements: seq<TsvElement>): (r: seq<(Option<string>, string)>)
    reads set e | e in elements
    ensures |r| == |elements|
    ensures forall k | 0 <= k < |elements| :: r[k] == (elements[k].onset, elements[k].hedString)
  {
    KeyedViews(Views(elements))
  }

  /** The onsets of the elements with a non-empty HED string, each once, in
      the order of their first element: the keys of `_getOnsetMap`. */
  function OnsetKeys(entries: seq<(Option<string>, string)>): seq<Option<string>> {
    if entries == [] then []
    else
      var keys := OnsetKeys(entries[..|entries| - 1]);
      var e := entries[|entries| - 1];
      if e.1 != "" && e.0 !in keys then keys + [e.0] else keys
  }

  /** The HED strings of the elements with a non-empty HED string and the
      given onset, in order. */
  function StringsWithOnset(entries: seq<(Option<string>, string)>, onset: Option<string>): seq<string> {
    if entries == [] then []
    else
      var e := entries[|entries| - 1];
      StringsWithOnset(entries[..|entries| - 1], onset) + (if e.1 != "" && e.0 == onset then [e.1] else [])
  }

  /** The elements with a non-empty HED string and the given onset, in order. */
  function WithOnset(elements: seq<TsvElement>, onset: Option<string>): seq<TsvElement> {
    if elements == [] then []
    else
      var e := elements[|elements| - 1];
      WithOnset(elements[..|elements| - 1], onset) + (if e.hedString != "" && e.onset == onset then [e] else [])
  }

  /** Each onset is a key at most once. */
  lemma {:induction false} OnsetKeysDistinct(entries: seq<(Option<string>, string)>)
    ensures forall i, j | 0 <= i < j < |OnsetKeys(entries)| :: OnsetKeys(entries)[i] != OnsetKeys(entries)[j]
  {
    if entries != [] {
      var init := entries[..|entries| - 1];
      var e := entries[|entries| - 1];
      var keys0 := OnsetKeys(init);
      OnsetKeysDistinct(init);
      if e.1 != "" && e.0 !in keys0 {
        var keys := keys0 + [e.0];
        assert OnsetKeys(entries) == keys;
        forall i, j | 0 <= i < j < |keys|
          ensures keys[i] != keys[j]
        {
          assert keys[i] == keys0[i];
          if j < |keys0| {
            assert keys[j] == keys0[j];
          } else {
            assert keys0[i] in keys0;
          }
        }
      }
    }
  }

  /** The keys are exactly the onsets of the elements with a non-empty HED
      string. */
  lemma {:induction false} OnsetKeysMembers(entries: seq<(Option<string>, string)>, o: Option<string>)
    ensures o in OnsetKeys(entries) <==> exists k | 0 <= k < |entries| :: entries[k].1 != "" && entries[k].0 == o
  {
    if entries != [] {
      var init := entries[..|entries| - 1];
      var e := entries[|entries| - 1];
      var keys0 := OnsetKeys(init);
      OnsetKeysMembers(init, o);
      if o in OnsetKeys(entries) {
        if o in keys0 {
          var k :| 0 <= k < |init| && init[k].1 != "" && init[k].0 == o;
          assert entries[k] == init[k];
        } else {
          assert entries[|entries| - 1].1 != "" && entries[|entries| - 1].0 == o;
        }
      }
      if exists k | 0 <= k < |entries| :: entries[k].1 != "" && entries[k].0 == o {
        var k :| 0 <= k < |entries| && entries[k].1 != "" && entries[k].0 == o;
        if k < |init| {
          assert init[k] == entries[k];
          assert o in keys0;
        }
      }
    }
  }

  /** Every element with a non-empty HED string is in the list of its onset
      and in no other; elements with an empty HED string are in none. */
  lemma {:induction false} StringsWithOnsetMembers(entries: seq<(Option<string>, string)>, onset: Option<string>, s: string)
    ensures s in StringsWithOnset(entries, onset)
        <==> exists k | 0 <= k < |entries| :: entries[k] == (onset, s) && s != ""
  {
    if entries != [] {
      var init := entries[..|entries| - 1];
      var e := entries[|entries| - 1];
      var before := StringsWithOnset(init, onset);
      StringsWithOnsetMembers(init, onset, s);
      assert StringsWithOnset(entries, onset) == before + (if e.1 != "" && e.0 == onset then [e.1] else []);
      if s in StringsWithOnset(entries, onset) {
        if s in before {
          var k :| 0 <= k < |init| && init[k] == (onset, s) && s != "";
          assert entries[k] == init[k];
        } else {
          assert entries[|entries| - 1] == (onset, s);
        }
      }
      if exists k | 0 <= k < |entries| :: entries[k] == (onset, s) && s != "" {
        var k :| 0 <= k < |entries| && entries[k] == (onset, s) && s != "";
        if k < |init| {
          assert init[k] == entries[k];
        }
      }
    }
  }

  lemma {:induction false} StringsWithOnsetNone(entries: seq<(Option<string>, string)>, onset: Option<string>)
    requires forall k | 0 <= k < |entries| :: !(entries[k].1 != "" && entries[k].0 == onset)
    ensures StringsWithOnset(entries, onset) == []
  {
    if entries != [] {
      StringsWithOnsetNone(entries[..|entries| - 1], onset);
    }
  }

  lemma KeyedSnoc(elements: seq<TsvElement>, e: TsvElement)
    ensures Keyed(elements + [e]) == Keyed(elements) + [(e.onset, e.hedString)]
  {
    assert (elements + [e])[..|elements|] == elements;
  }

  lemma OnsetKeysSnoc(entries: seq<(Option<string>, string)>, e: (Option<string>, string))
    ensures OnsetKeys(entries + [e])
         == if e.1 != "" && e.0 !in OnsetKeys(entries) then OnsetKeys(entries) + [e.0] else OnsetKeys(entries)
  {
    assert (entries + [e])[..|entries|] == entries;
  }

  lemma WithOnsetSnoc(elements: seq<TsvElement>, e: TsvElement, onset: Option<string>)
    ensures WithOnset(elements + [e], onset)
         == WithOnset(elements, onset) + (if e.hedString != "" && e.onset == onset then [e] else [])
  {
    assert (elements + [e])[..|elements|] == elements;
  }

  /** An onset that is not a key has no elements. */
  lemma {:induction false} WithOnsetEmpty(elements: seq<TsvElement>, onset: Option<string>)
    requires onset !in OnsetKeys(Keyed(elements))
    ensures WithOnset(elements, onset) == []
  {
    if elements != [] {
      var init := elements[..|elements| - 1];
      var e := elements[|elements| - 1];
      assert elements == init + [e];
      KeyedSnoc(init, e);
      OnsetKeysSnoc(Keyed(init), (e.onset, e.hedString));
      var keys0 := OnsetKeys(Keyed(init));
      assert OnsetKeys(Keyed(elements)) == keys0 || OnsetKeys(Keyed(elements)) == keys0 + [e.onset];
      assert onset !in keys0;
      WithOnsetEmpty(init, onset);
      assert !(e.hedString != "" && e.onset == onset);
      assert WithOnset(elements, onset) == WithOnset(init, onset);
    }
  }

  /** The position of the group with the given onset, or the number of
      groups when there is none. */
  function GroupIndex(groups: seq<(Option<string>, seq<TsvElement>)>, onset: Option<string>): (r: nat)
    ensures r <= |groups|
    ensures forall j | 0 <= j < r :: groups[j].0 != onset
    ensures r < |groups| ==> groups[r].0 == onset
  {
    if groups == [] then 0
    else if groups[0].0 == onset then 0
    else 1 + GroupIndex(groups[1..], onset)
  }

  /** The map `_getOnsetMap` builds, as a list of (onset, elements) entries in
      insertion order. */
  function OnsetGroups(elements: seq<TsvElement>): seq<(Option<string>, seq<TsvElement>)> {
    if elements == [] then []
    else
      var groups := OnsetGroups(elements[..|elements| - 1]);
      var e := elements[|elements| - 1];
      if e.hedString == "" then groups
      else
        var i := GroupIndex(groups, e.onset);
        if i < |groups| then groups[i := (e.onset, groups[i].1 + [e])] else groups + [(e.onset, [e])]
  }

  /** The groups are keyed by the onsets in order of first appearance, and
      each holds the elements with its onset in row order. */
  lemma {:induction false} OnsetGroupsFacts(elements: seq<TsvElement>)
    ensures var groups := OnsetGroups(elements);
      |groups| == |OnsetKeys(Keyed(elements))|
      && forall i | 0 <= i < |groups| ::
           groups[i].0 == OnsetKeys(Keyed(elements))[i] && groups[i].1 == WithOnset(elements, groups[i].0)
  {
    if elements != [] {
      var prefix := elements[..|elements| - 1];
      var element := elements[|elements| - 1];
      OnsetGroupsFacts(prefix);
      var before := OnsetGroups(prefix);
      var keys0 := OnsetKeys(Keyed(prefix));
      var groups := OnsetGroups(elements);
      var keys1 := OnsetKeys(Keyed(elements));
      assert elements == prefix + [element];
      KeyedSnoc(prefix, element);
      OnsetKeysSnoc(Keyed(prefix), (element.onset, element.hedString));
      if element.hedString == "" {
        forall j | 0 <= j < |groups|
          ensures groups[j].0 == keys1[j] && groups[j].1 == WithOnset(elements, groups[j].0)
        {
          WithOnsetSnoc(prefix, element, groups[j].0);
        }
      } else {
        var i := GroupIndex(before, element.onset);
        if i < |before| {
          assert element.onset in keys0 by { assert keys0[i] == element.onset; }
          forall j | 0 <= j < |groups|
            ensures groups[j].0 == keys1[j] && groups[j].1 == WithOnset(elements, groups[j].0)
          {
            WithOnsetSnoc(prefix, element, groups[j].0);
            if j != i {
              assert groups[j] == before[j];
              assert before[j].0 != element.onset by { OnsetKeysDistinct(Keyed(prefix)); }
            }
          }
        } else {
          assert element.onset !in keys0;
          WithOnsetEmpty(prefix, element.onset);
          forall j | 0 <= j < |groups|
            ensures groups[j].0 == keys1[j] && groups[j].1 == WithOnset(elements, groups[j].0)
          {
            WithOnsetSnoc(prefix, element, groups[j].0);
            if j < |before| {
              assert groups[j] == before[j];
            }
          }
        }
      }
    }
  }

  /** The HED strings of the grouped elements are the grouped HED strings. */
  lemma {:induction false} WithOnsetStrings(elements: seq<TsvElement>, onset: Option<string>)
    ensures HedStrings(WithOnset(elements, onset)) == StringsWithOnset(Keyed(elements), onset)
  {
    if elements != [] {
      var init := elements[..|elements| - 1];
      WithOnsetStrings(init, onset);
      assert Keyed(elements)[..|elements| - 1] == Keyed(init);
      var e := elements[|elements| - 1];
      var front := WithOnset(init, onset);
      if e.hedString != "" && e.onset == onset {
        assert HedStrings(front + [e]) == HedStrings(front) + [e.hedString];
      } else {
        assert front + [] == front;
      }
    }
  }

  // ---------------------------------------------------------------------------
  // Duplicates across rows with the same onset
  // ---------------------------------------------------------------------------

  /** `_checkDuplicatesAcrossRows` over the first onsets: each onset shared by
      two or more elements is checked by parsing the comma-join of their HED
      strings, in row order. */
  function DuplicateIssuesOver(keys: seq<Option<string>>, entries: seq<(Option<string>, string)>,
                               parse: string -> ParseResult): (seq<Issue>, seq<Issue>)
  {
    if keys == [] then ([], [])
    else
      var done := DuplicateIssuesOver(keys[..|keys| - 1], entries, parse);
      var strings := StringsWithOnset(entries, keys[|keys| - 1]);
      if |strings| == 1 then done
      else
        var result := parse(Join(strings, ","));
        (done.0 + result.errors, done.1 + result.warnings)
  }

  lemma DuplicateIssuesStep(keys: seq<Option<string>>, i: nat, entries: seq<(Option<string>, string)>,
                            parse: string -> ParseResult)
    requires i < |keys|
    ensures var done := DuplicateIssuesOver(keys[..i], entries, parse);
      var strings := StringsWithOnset(entries, keys[i]);
      DuplicateIssuesOver(keys[..i + 1], entries, parse)
        == if |strings| == 1 then done
           else (done.0 + parse(Join(strings, ",")).errors, done.1 + parse(Join(strings, ",")).warnings)
  {
    assert keys[..i + 1][..i] == keys[..i];
  }

  /** One group of the onset map adds what `DuplicateIssuesOver` adds for
      its onset. */
  lemma DuplicateGroupStep(elements: seq<TsvElement>, groups: seq<(Option<string>, seq<TsvElement>)>, i: nat,
                           parse: string -> ParseResult)
    requires groups == OnsetGroups(elements) && i < |groups|
    ensures |OnsetKeys(Keyed(elements))| == |groups|
    ensures var entries := Keyed(elements);
      var keys := OnsetKeys(entries);
      var done := DuplicateIssuesOver(keys[..i], entries, parse);
      var strings := HedStrings(groups[i].1);
      |strings| == |groups[i].1|
      && DuplicateIssuesOver(keys[..i + 1], entries, parse)
         == if |strings| == 1 then done
            else (done.0 + parse(Join(strings, ",")).errors, done.1 + parse(Join(strings, ",")).warnings)
  {
    var entries := Keyed(elements);
    var keys := OnsetKeys(entries);
    OnsetGroupsFacts(elements);
    assert groups[i].1 == WithOnset(elements, keys[i]);
    WithOnsetStrings(elements, keys[i]);
    DuplicateIssuesStep(keys, i, entries, parse);
  }

  function DuplicateIssues(entries: seq<(Option<string>, string)>, parse: string -> ParseResult): (seq<Issue>, seq<Issue>) {
    DuplicateIssuesOver(OnsetKeys(entries), entries, parse)
  }

  /** Onsets that only one element has are never re-parsed. */
  lemma {:induction false} DuplicatesNeedSharedOnsets(keys: seq<Option<string>>, entries: seq<(Option<string>, string)>,
                                                     parse: string -> ParseResult)
    requires forall k | 0 <= k < |keys| :: |StringsWithOnset(entries, keys[k])| == 1
    ensures DuplicateIssuesOver(keys, entries, parse) == ([], [])
  {
    if keys != [] {
      DuplicatesNeedSharedOnsets(keys[..|keys| - 1], entries, parse);
    }
  }

  /** When no two elements with HED strings share an onset, the check finds
      nothing. */
  lemma DistinctOnsetsNoDuplicates(entries: seq<(Option<string>, string)>, parse: string -> ParseResult)
    requires forall i, j | 0 <= i < j < |entries| && entries[i].1 != "" && entries[j].1 != "" :: entries[i].0 != entries[j].0
    ensures DuplicateIssues(entries, parse) == ([], [])
  {
    var keys := OnsetKeys(entries);
    forall k | 0 <= k < |keys|
      ensures |StringsWithOnset(entries, keys[k])| == 1
    {
      OnsetKeysMembers(entries, keys[k]);
      var i :| 0 <= i < |entries| && entries[i].1 != "" && entries[i].0 == keys[k];
      SingleOnset(entries, i);
    }
    DuplicatesNeedSharedOnsets(keys, entries, parse);
  }

  lemma {:induction false} SingleOnset(entries: seq<(Option<string>, string)>, i: nat)
    requires i < |entries| && entries[i].1 != ""
    requires forall a, b | 0 <= a < b < |entries| && entries[a].1 != "" && entries[b].1 != "" :: entries[a].0 != entries[b].0
    ensures StringsWithOnset(entries, entries[i].0) == [entries[i].1]
  {
    var init := entries[..|entries| - 1];
    var e := entries[|entries| - 1];
    assert forall k | 0 <= k < |init| :: entries[k] == init[k];
    if i == |entries| - 1 {
      StringsWithOnsetNone(init, e.0);
    } else {
      SingleOnset(init, i);
    }
  }

  // ---------------------------------------------------------------------------
  // Dataset checks
  // ---------------------------------------------------------------------------

  /** `_validateTemporal`, from the errors and warnings found so far. */
  function TemporalStage<Event>(errors: seq<Issue>, warnings: seq<Issue>, views: seq<ElementView>,
                                env: Collaborators<Event>): (seq<Issue>, seq<Issue>)
  {
    var parsedEvents := env.parseEvents(views);
    if parsedEvents.1 != [] then (errors + parsedEvents.1, warnings)
    else
      var duplicates := DuplicateIssues(KeyedViews(views), env.parseHedString);
      var afterDuplicates := errors + duplicates.0;
      (if afterDuplicates == [] then env.validateEvents(parsedEvents.0) else afterDuplicates, warnings + duplicates.1)
  }

  /** `validateDataset`, from the errors and warnings found so far. */
  function DatasetStage<Event>(errors: seq<Issue>, warnings: seq<Issue>, views: seq<ElementView>,
                               isTimelineFile: bool, env: Collaborators<Event>): (seq<Issue>, seq<Issue>)
  {
    var afterTopTags := errors + TopTagErrors(views, env);
    if afterTopTags != [] then (afterTopTags, warnings)
    else if isTimelineFile then TemporalStage(afterTopTags, warnings, views, env)
    else (NoTimeErrors(views, env), warnings)
  }

  /** A file that is not a timeline never gets temporal checks, and one that
      is never gets the temporal-tag error from this stage. */
  lemma DatasetStageKinds<Event>(views: seq<ElementView>, isTimelineFile: bool, env: Collaborators<Event>, warnings: seq<Issue>)
    ensures var r := DatasetStage([], warnings, views, isTimelineFile, env);
      (!isTimelineFile ==> r == (TopTagErrors(views, env) + (if TopTagErrors(views, env) == [] then NoTimeErrors(views, env) else []), warnings))
      && (isTimelineFile && TopTagErrors(views, env) == [] ==> r == TemporalStage([], warnings, views, env))
  {
    var topTags := TopTagErrors(views, env);
    assert [] + topTags == topTags;
    assert topTags == [] ==> topTags + NoTimeErrors(views, env) == NoTimeErrors(views, env);
    assert topTags != [] ==> topTags + [] == topTags;
  }

  /** Elements as the parser leaves them, from the rows' strings, lines and
      onsets. */
  function ExpectedViews(rows: seq<(string, nat, Option<string>)>, parse: string -> ParseResult): (r: seq<ElementView>)
    ensures |r| == |rows|
    ensures forall k | 0 <= k < |rows| :: r[k] == ElementView(rows[k].0, rows[k].1, rows[k].2, parse(rows[k].0).parsed)
  {
    if rows == [] then []
    else
      var row := rows[|rows| - 1];
      ExpectedViews(rows[..|rows| - 1], parse) + [ElementView(row.0, row.1, row.2, parse(row.0).parsed)]
  }

  function RowStrings(rows: seq<(string, nat, Option<string>)>): (r: seq<string>)
    ensures |r| == |rows|
    ensures forall k | 0 <= k < |rows| :: r[k] == rows[k].0
  {
    if rows == [] then [] else RowStrings(rows[..|rows| - 1]) + [rows[|rows| - 1].0]
  }

  lemma {:induction false} NoParseErrors(strings: seq<string>, parse: string -> ParseResult)
    requires ParseErrors(strings, parse) == []
    ensures forall k | 0 <= k < |strings| :: parse(strings[k]).errors == []
  {
    if strings != [] {
      var init := strings[..|strings| - 1];
      NoParseErrors(init, parse);
      assert forall k | 0 <= k < |init| :: strings[k] == init[k];
    }
  }

  /** Once the parser has reported no error, every element has its parsed
      string. */
  lemma ExpectedViewsParsed(rows: seq<(string, nat, Option<string>)>, parse: string -> ParseResult)
    requires ParserReportsFailures(parse)
    requires ParseErrors(RowStrings(rows), parse) == []
    ensures forall k | 0 <= k < |rows| :: ExpectedViews(rows, parse)[k].parsed.Some?
  {
    NoParseErrors(RowStrings(rows), parse);
  }

  /** Elements built from the rows and parsed are seen as `ExpectedViews`. */
  lemma ParsedElements(elements: seq<TsvElement>, rows: seq<(string, nat, Option<string>)>, parse: string -> ParseResult)
    requires |elements| == |rows|
    requires forall k | 0 <= k < |elements| ::
               (elements[k].hedString, elements[k].tsvLine, elements[k].onset) == rows[k]
               && elements[k].parsedHedString == parse(elements[k].hedString).parsed
    ensures HedStrings(elements) == RowStrings(rows)
    ensures Views(elements) == ExpectedViews(rows, parse)
    ensures forall k | 0 <= k < |elements| :: elements[k].parsedHedString == ExpectedViews(rows, parse)[k].parsed
  {
  }

  /** Once the parser has reported no error, every element has its parsed
      string. */
  lemma ParsedElementsParsed(elements: seq<TsvElement>, rows: seq<(string, nat, Option<string>)>, parse: string -> ParseResult)
    requires ParserReportsFailures(parse)
    requires ParseErrors(RowStrings(rows), parse) == []
    requires |elements| == |rows|
    requires forall k | 0 <= k < |elements| ::
               elements[k].hedString == rows[k].0 && elements[k].parsedHedString == parse(elements[k].hedString).parsed
    ensures forall k | 0 <= k < |elements| :: elements[k].parsedHedString.Some?
  {
    NoParseErrors(RowStrings(rows), parse);
  }

  /** The rows with a HED string, as the parser assembles them. */
  function ExpectedRows(file: TsvFile): Result<seq<(string, nat, Option<string>)>, ColumnError> {
    TsvHedRows((file.parsedTsv, file.sidecar))
  }

  /** `validate`, from the errors and warnings found so far: what it throws,
      and the errors and warnings it leaves.  Each stage runs only when no
      error is left by the stages before it. */
  function ValidateOutcome<Event>(errors: seq<Issue>, warnings: seq<Issue>, file: TsvFile, env: Collaborators<Event>)
    : (Option<ColumnError>, seq<Issue>, seq<Issue>)
  {
    var sidecar := SplitErrors(env.sidecarIssues);
    var errors1, warnings1 := errors + sidecar.0, warnings + sidecar.1;
    if errors1 != [] then (None, errors1, warnings1)
    else
      var column := HedColumnIssues(file.hedColumnHedStrings, env);
      var warnings2 := warnings1 + column.1;
      if column.0 != [] then (None, column.0, warnings2)
      else
        match ExpectedRows(file)
        case Failure(error) => (Some(error), [], warnings2)
        case Success(rows) =>
          var strings := RowStrings(rows);
          var parseErrors := ParseErrors(strings, env.parseHedString);
          var warnings3 := warnings2 + ParseWarnings(strings, env.parseHedString);
          if parseErrors != [] then (None, parseErrors, warnings3)
          else
            var dataset := DatasetStage([], warnings3, ExpectedViews(rows, env.parseHedString), file.isTimelineFile, env);
            (None, dataset.0, dataset.1)
  }

  /** Row assembly throws only for a file whose sidecar and `HED` column have
      no errors, and then no error is left. */
  lemma ValidateThrows<Event>(errors: seq<Issue>, warnings: seq<Issue>, file: TsvFile, env: Collaborators<Event>)
    ensures var outcome := ValidateOutcome(errors, warnings, file, env);
      outcome.0.Some? <==>
        errors + SplitErrors(env.sidecarIssues).0 == [] && HedColumnIssues(file.hedColumnHedStrings, env).0 == []
        && ExpectedRows(file).Failure?
    ensures var outcome := ValidateOutcome(errors, warnings, file, env);
      outcome.0.Some? ==> outcome.0.value == ExpectedRows(file).error && outcome.1 == []
  {
  }

  // ---------------------------------------------------------------------------
  // The validator
  // ---------------------------------------------------------------------------

  /** Validator for the HED data of one BIDS TSV file. */
  class BidsHedTsvValidator<Event> {
    const bidsFile: TsvFile
    const env: Collaborators<Event>
    var errors: seq<Issue>
    var warnings: seq<Issue>

    constructor (bidsFile: TsvFile, env: Collaborators<Event>)
      ensures this.bidsFile == bidsFile && this.env == env
      ensures errors == [] && warnings == []
    {
      this.bidsFile := bidsFile;
      this.env := env;
      errors := [];
      warnings := [];
    }

    /** `validate`: the sidecar, the HED column, row assembly and parsing, and
        the dataset checks, stopping after the first stage that leaves errors.
        A categorical cell without a level makes row assembly throw. */
    method Validate() returns (thrown: Option<ColumnError>)
      requires ParserReportsFailures(env.parseHedString)
      modifies this
      ensures (thrown, errors, warnings) == ValidateOutcome(old(errors), old(warnings), bidsFile, env)
    {
      var sidecar := SplitErrors(env.sidecarIssues);
      errors := errors + sidecar.0;
      warnings := warnings + sidecar.1;
      if |errors| > 0 {
        return None;
      }
      ValidateHedColumn();
      ghost var column := HedColumnIssues(bidsFile.hedColumnHedStrings, env);
      assert [] + column.0 == column.0;
      if |errors| > 0 {
        return None;
      }
      var parsed := ParseRows();
      if parsed.Failure? {
        return Some(parsed.error);
      }
      var elements := parsed.value;
      ghost var rows := ExpectedRows(bidsFile).value;
      ghost var views := ExpectedViews(rows, env.parseHedString);
      assert [] + ParseErrors(RowStrings(rows), env.parseHedString) == ParseErrors(RowStrings(rows), env.parseHedString);
      if |errors| > 0 {
        return None;
      }
      ExpectedViewsParsed(rows, env.parseHedString);
      ghost var stage := DatasetStage([], warnings, views, bidsFile.isTimelineFile, env);
      assert ValidateOutcome(old(errors), old(warnings), bidsFile, env) == (None, stage.0, stage.1);
      ValidateDataset(elements);
      assert Views(elements) == views;
      return None;
    }

    /** The parsing step of `validate`: the parser's elements, with the errors
        and warnings of their HED strings added. */
    method ParseRows() returns (r: Result<seq<TsvElement>, ColumnError>)
      modifies this
      ensures r.Failure? <==> ExpectedRows(bidsFile).Failure?
      ensures r.Failure? ==> r.error == ExpectedRows(bidsFile).error && errors == old(errors) && warnings == old(warnings)
      ensures r.Success? ==>
        var rows := ExpectedRows(bidsFile).value;
        errors == old(errors) + ParseErrors(RowStrings(rows), env.parseHedString)
        && warnings == old(warnings) + ParseWarnings(RowStrings(rows), env.parseHedString)
        && Views(r.value) == ExpectedViews(rows, env.parseHedString)
        && (forall k | 0 <= k < |r.value| :: r.value[k].parsedHedString == ExpectedViews(rows, env.parseHedString)[k].parsed)
    {
      var parser := new BidsHedTsvParser(bidsFile.parsedTsv, bidsFile.sidecar, env.parseHedString);
      var parsed := parser.Parse();
      if parsed.Failure? {
        return Failure(parsed.error);
      }
      var elements := parsed.value.0;
      ghost var rows := ExpectedRows(bidsFile).value;
      assert rows == TsvHedRows(parser.tsvFile).value;
      errors := errors + parsed.value.1;
      warnings := warnings + parsed.value.2;
      ParsedElements(elements, rows, env.parseHedString);
      return Success(elements);
    }

    /** `_validateHedColumn`: every string of the `HED` column is checked. */
    method ValidateHedColumn()
      modifies this
      ensures var column := HedColumnIssues(bidsFile.hedColumnHedStrings, env);
        errors == old(errors) + column.0 && warnings == old(warnings) + column.1
    {
      var strings := bidsFile.hedColumnHedStrings;
      ghost var errors0, warnings0 := errors, warnings;
      for k := 0 to |strings|
        invariant errors == errors0 + HedColumnIssues(strings[..k], env).0
        invariant warnings == warnings0 + HedColumnIssues(strings[..k], env).1
      {
        assert strings[..k + 1][..k] == strings[..k];
        ghost var done := HedColumnIssues(strings[..k], env);
        ghost var more := HedColumnStringIssues(strings[k], env);
        assert HedColumnIssues(strings[..k + 1], env) == (done.0 + more.0, done.1 + more.1);
        AppendAssoc(errors0, done.0, more.0);
        AppendAssoc(warnings0, done.1, more.1);
        ValidateHedColumnString(strings[k]);
      }
      assert strings[..|strings|] == strings;
    }

    /** `_validateHedColumnString`. */
    method ValidateHedColumnString(hedString: string)
      modifies this
      ensures var added := HedColumnStringIssues(hedString, env);
        errors == old(errors) + added.0 && warnings == old(warnings) + added.1
    {
      if hedString == "" {
        return;
      }
      var result := env.parseHedString(hedString);
      errors := errors + result.errors;
      warnings := warnings + result.warnings;
      if result.parsed.None? {
        return;
      }
      var parsedString := result.parsed.value;
      if |parsedString.columnSplices| > 0 {
        errors := errors + [CurlyBraces(parsedString.hedString)];
        return;
      }
      var defIssues := env.validateDefs(parsedString) + env.validateDefExpands(parsedString);
      errors := errors + defIssues;
    }

    /** `validateDataset`: top-level tags first; then the temporal checks of a
        timeline file, or the ban on temporal tags elsewhere. */
    method ValidateDataset(elements: seq<TsvElement>)
      requires !bidsFile.isTimelineFile ==> forall k | 0 <= k < |elements| :: elements[k].parsedHedString.Some?
      modifies this
      ensures (errors, warnings) == DatasetStage(old(errors), old(warnings), Views(elements), bidsFile.isTimelineFile, env)
    {
      ghost var views := Views(elements);
      ghost var stage := DatasetStage(errors, warnings, views, bidsFile.isTimelineFile, env);
      CheckNoTopTags(elements);
      assert Views(elements) == views;
      if |errors| > 0 {
        return;
      }
      assert errors == [];
      if bidsFile.isTimelineFile {
        ValidateTemporal(elements);
        assert Views(elements) == views;
      } else {
        CheckNoTime(elements);
        assert Views(elements) == views;
        assert [] + NoTimeErrors(views, env) == NoTimeErrors(views, env);
        assert errors == NoTimeErrors(views, env);
        assert stage.0 == NoTimeErrors(views, env);
      }
    }

    /** `_validateTemporal`. */
    method ValidateTemporal(elements: seq<TsvElement>)
      modifies this
      ensures (errors, warnings) == TemporalStage(old(errors), old(warnings), Views(elements), env)
    {
      var views := Views(elements);
      var parsedEvents := env.parseEvents(views);
      var eventList, temporalIssues := parsedEvents.0, parsedEvents.1;
      if |temporalIssues| > 0 {
        assert TemporalStage(errors, warnings, views, env) == (errors + temporalIssues, warnings);
        errors := errors + temporalIssues;
        assert Views(elements) == views;
        return;
      }
      ghost var errors0, warnings0 := errors, warnings;
      ghost var duplicates := DuplicateIssues(KeyedViews(views), env.parseHedString);
      CheckDuplicatesAcrossRows(elements);
      assert errors == errors0 + duplicates.0 && warnings == warnings0 + duplicates.1;
      if |errors| == 0 {
        errors := errors + env.validateEvents(eventList);
        assert errors == env.validateEvents(eventList);
      }
      assert Views(elements) == views;
    }

    /** `_checkDuplicatesAcrossRows`. */
    method CheckDuplicatesAcrossRows(elements: seq<TsvElement>)
      modifies this
      ensures var duplicates := DuplicateIssues(Keyed(elements), env.parseHedString);
        errors == old(errors) + duplicates.0 && warnings == old(warnings) + duplicates.1
    {
      var duplicateMap := GetOnsetMap(elements);
      ghost var entries := Keyed(elements);
      ghost var keys := OnsetKeys(entries);
      ghost var errors0, warnings0 := errors, warnings;
      for i := 0 to |duplicateMap|
        invariant errors == errors0 + DuplicateIssuesOver(keys[..i], entries, env.parseHedString).0
        invariant warnings == warnings0 + DuplicateIssuesOver(keys[..i], entries, env.parseHedString).1
      {
        var elementList := duplicateMap[i].1;
        ghost var done := DuplicateIssuesOver(keys[..i], entries, env.parseHedString);
        DuplicateGroupStep(elements, duplicateMap, i, env.parseHedString);
        if |elementList| == 1 {
          continue;
        }
        var rowString := Join(HedStrings(elementList), ",");
        var result := env.parseHedString(rowString);
        AppendAssoc(errors0, done.0, result.errors);
        AppendAssoc(warnings0, done.1, result.warnings);
        errors := errors + result.errors;
        warnings := warnings + result.warnings;
      }
      assert keys[..|keys|] == keys;
    }

    /** `_getOnsetMap`: the elements with a non-empty HED string grouped by
        onset; the groups in order of first appearance, each group in row
        order. */
    method GetOnsetMap(elements: seq<TsvElement>) returns (onsetMap: seq<(Option<string>, seq<TsvElement>)>)
      ensures onsetMap == OnsetGroups(elements)
      ensures |onsetMap| == |OnsetKeys(Keyed(elements))|
      ensures forall i | 0 <= i < |onsetMap| ::
                onsetMap[i].0 == OnsetKeys(Keyed(elements))[i] && onsetMap[i].1 == WithOnset(elements, onsetMap[i].0)
    {
      onsetMap := [];
      for n := 0 to |elements|
        invariant onsetMap == OnsetGroups(elements[..n])
      {
        var element := elements[n];
        assert elements[..n + 1][..n] == elements[..n];
        if element.hedString == "" {
          continue;
        }
        var i := 0;
        while i < |onsetMap| && onsetMap[i].0 != element.onset
          invariant 0 <= i <= |onsetMap|
          invariant forall j | 0 <= j < i :: onsetMap[j].0 != element.onset
        {
          i := i + 1;
        }
        assert i == GroupIndex(onsetMap, element.onset);
        if i < |onsetMap| {
          onsetMap := onsetMap[i := (element.onset, onsetMap[i].1 + [element])];
        } else {
          onsetMap := onsetMap + [(element.onset, [element])];
        }
      }
      assert elements[..|elements|] == elements;
      OnsetGroupsFacts(elements);
    }

    /** `_checkNoTopTags`. */
    method CheckNoTopTags(elements: seq<TsvElement>)
      modifies this
      ensures errors == old(errors) + TopTagErrors(Views(elements), env) && warnings == old(warnings)
    {
      ghost var views := Views(elements);
      ghost var errors0 := errors;
      for k := 0 to |elements|
        invariant errors == errors0 + TopTagErrors(views[..k], env) && warnings == old(warnings)
      {
        var element := elements[k];
        assert views[..k + 1] == views[..k] + [views[k]];
        TopTagErrorsSnoc(views[..k], views[k], env);
        var topTags := if element.parsedHedString.Some? then element.parsedHedString.value.topLevelTagNames else [];
        var badTags := BadTags(topTags, env.hasTopLevelTagGroupAttribute);
        assert |badTags| > 0 ==> badTags[0] in badTags;
        if |badTags| > 0 {
          var issue := Issue("invalidTopLevelTag", Error, element.hedString);
          AppendAssoc(errors0, TopTagErrors(views[..k], env), [issue]);
          errors := errors + [issue];
        }
      }
      assert views[..|elements|] == views;
    }

    /** `_checkNoTime`: every element must have been parsed. */
    method CheckNoTime(elements: seq<TsvElement>)
      requires forall k | 0 <= k < |elements| :: elements[k].parsedHedString.Some?
      modifies this
      ensures errors == old(errors) + NoTimeErrors(Views(elements), env) && warnings == old(warnings)
    {
      ghost var views := Views(elements);
      ghost var errors0 := errors;
      for k := 0 to |elements|
        invariant errors == errors0 + NoTimeErrors(views[..k], env) && warnings == old(warnings)
      {
        var element := elements[k];
        assert views[..k + 1] == views[..k] + [views[k]];
        NoTimeErrorsSnoc(views[..k], views[k], env);
        var tags := element.parsedHedString.value.tagNames;
        if exists t | t in tags :: t in env.timelineTags {
          var issue := Issue("temporalTagInNonTemporalContext", Error, element.hedString);
          AppendAssoc(errors0, NoTimeErrors(views[..k], env), [issue]);
          errors := errors + [issue];
        }
      }
      assert views[..|elements|] == views;
    }
  }
}
