/**
 * Dataset-level validation of HED strings: every string of a dataset is
 * validated by a per-string event validator, and the dataset is valid when
 * every string is.  Definition parsing and dataset-wide checks are still
 * placeholders in the validator, and are modelled as such.
 *
 * The per-string validator (`validateHedEvent`) lives outside this model; it
 * is a parameter, a total function from (string, schema, checkForWarnings)
 * to (valid, issues).
 */
module Dataset {

  /** The definitions found in a dataset, by definition name. */
  datatype Definitions = Definitions(byName: map<string, string>)

  /** Every string of `hedStrings` is valid according to `validate`. */
  predicate AllValid<S, I>(hedStrings: seq<string>, schema: S, checkForWarnings: bool,
                           validate: (string, S, bool) -> (bool, seq<I>))
  {
    forall i | 0 <= i < |hedStrings| :: validate(hedStrings[i], schema, checkForWarnings).0
  }

  /** The issues of every string, concatenated in the order of the strings. */
  function AllIssues<S, I>(hedStrings: seq<string>, schema: S, checkForWarnings: bool,
                           validate: (string, S, bool) -> (bool, seq<I>)): seq<I>
  {
    if hedStrings == [] then []
    else AllIssues(hedStrings[..|hedStrings| - 1], schema, checkForWarnings, validate)
         + validate(hedStrings[|hedStrings| - 1], schema, checkForWarnings).1
  }

  /** The issues of a concatenation are the issues of its parts. */
  lemma {:induction false} AllIssuesAppend<S, I>(a: seq<string>, b: seq<string>, schema: S, checkForWarnings: bool,
                                                 validate: (string, S, bool) -> (bool, seq<I>))
    ensures AllIssues(a + b, schema, checkForWarnings, validate)
         == AllIssues(a, schema, checkForWarnings, validate) + AllIssues(b, schema, checkForWarnings, validate)
    decreases |b|
  {
    if b != [] {
      var b0 := b[..|b| - 1];
      assert (a + b)[..|a + b| - 1] == a + b0;
      AllIssuesAppend(a, b0, schema, checkForWarnings, validate);
    } else {
      assert a + b == a;
    }
  }

  /** An issue is reported for the dataset exactly when some string reports it. */
  lemma {:induction false} AllIssuesMembers<S, I>(hedStrings: seq<string>, schema: S, checkForWarnings: bool,
                                                  validate: (string, S, bool) -> (bool, seq<I>), issue: I)
    ensures issue in AllIssues(hedStrings, schema, checkForWarnings, validate)
        <==> exists i | 0 <= i < |hedStrings| :: issue in validate(hedStrings[i], schema, checkForWarnings).1
  {
    if hedStrings != [] {
      var init := hedStrings[..|hedStrings| - 1];
      AllIssuesMembers(init, schema, checkForWarnings, validate, issue);
      if issue in AllIssues(hedStrings, schema, checkForWarnings, validate) {
        if issue in AllIssues(init, schema, checkForWarnings, validate) {
          var i :| 0 <= i < |init| && issue in validate(init[i], schema, checkForWarnings).1;
          assert hedStrings[i] == init[i];
        } else {
          assert issue in validate(hedStrings[|hedStrings| - 1], schema, checkForWarnings).1;
        }
      }
      if exists i | 0 <= i < |hedStrings| :: issue in validate(hedStrings[i], schema, checkForWarnings).1 {
        var i :| 0 <= i < |hedStrings| && issue in validate(hedStrings[i], schema, checkForWarnings).1;
        if i < |init| {
          assert init[i] == hedStrings[i];
        }
      }
    }
  }

  /** The issues of one string sit, in place, between those of the strings
      before it and those of the strings after it. */
  lemma {:induction false} AllIssuesAt<S, I>(hedStrings: seq<string>, i: nat, schema: S, checkForWarnings: bool,
                                             validate: (string, S, bool) -> (bool, seq<I>))
    requires i < |hedStrings|
    ensures AllIssues(hedStrings, schema, checkForWarnings, validate)
         == AllIssues(hedStrings[..i], schema, checkForWarnings, validate)
            + validate(hedStrings[i], schema, checkForWarnings).1
            + AllIssues(hedStrings[i + 1..], schema, checkForWarnings, validate)
  {
    var front := hedStrings[..i + 1];
    assert hedStrings == front + hedStrings[i + 1..];
    AllIssuesAppend(front, hedStrings[i + 1..], schema, checkForWarnings, validate);
    assert front[..|front| - 1] == hedStrings[..i];
  }

  /** Validate a group of HED strings one by one: the group is valid when every
      string is, and the issues of all strings are gathered in order. */
  method ValidateHedEvents<S, I>(hedStrings: seq<string>, schema: S, checkForWarnings: bool,
                                 validate: (string, S, bool) -> (bool, seq<I>))
    returns (stringsValid: bool, stringIssues: seq<I>)
    ensures stringsValid <==> AllValid(hedStrings, schema, checkForWarnings, validate)
    ensures stringIssues == AllIssues(hedStrings, schema, checkForWarnings, validate)
  {
    stringsValid := true;
    stringIssues := [];
    for n := 0 to |hedStrings|
      invariant stringsValid <==> AllValid(hedStrings[..n], schema, checkForWarnings, validate)
      invariant stringIssues == AllIssues(hedStrings[..n], schema, checkForWarnings, validate)
    {
      var result := validate(hedStrings[n], schema, checkForWarnings);
      assert hedStrings[..n + 1][..n] == hedStrings[..n];
      stringsValid := stringsValid && result.0;
      stringIssues := stringIssues + result.1;
    }
    assert hedStrings[..|hedStrings|] == hedStrings;
  }

  /** Definition parsing is a placeholder: no definitions are found and the
      strings are handed on unchanged. */
  function ParseDefinitions<S>(hedStrings: seq<string>, schema: S): (r: (Definitions, seq<string>))
    ensures r.0.byName == map[]
    ensures r.1 == hedStrings
  {
    (Definitions(map[]), hedStrings)
  }

  /** Dataset-wide validation is a placeholder: every dataset passes with no issues. */
  function ValidateDataset<S, I>(definitions: Definitions, hedStrings: seq<string>, schema: S): (r: (bool, seq<I>))
    ensures r.0 && r.1 == []
  {
    (true, [])
  }

  /** Validate a HED dataset.  When some string is invalid, the dataset is
      invalid and reports the issues of all strings; otherwise the dataset-wide
      validation decides, so the warnings of individually valid strings are
      not reported. */
  method ValidateHedDataset<S, I>(hedStrings: seq<string>, schema: S, checkForWarnings: bool,
                                  validate: (string, S, bool) -> (bool, seq<I>))
    returns (valid: bool, issues: seq<I>)
    ensures valid <==> AllValid(hedStrings, schema, checkForWarnings, validate)
    ensures !valid ==> issues == AllIssues(hedStrings, schema, checkForWarnings, validate)
    ensures valid ==> issues == []
  {
    var stringsValid, stringIssues := ValidateHedEvents(hedStrings, schema, checkForWarnings, validate);
    if !stringsValid {
      return false, stringIssues;
    }
    var parsed := ParseDefinitions(hedStrings, schema);
    var result: (bool, seq<I>) := ValidateDataset(parsed.0, parsed.1, schema);
    valid, issues := result.0, result.1;
  }
}
