/** The schema-version strings of a BIDS dataset (validator/bids/schema.js):
    `parseSchemaSpec` splits one `nickname:library_version` string,
    `parseSchemasSpec` collects a version or a list of versions, and
    `buildBidsSchemas` decides whether schemas are to be built at all.

    `semver.valid` is the parameter `semverValid` (the Semantic Versioning 2.0.0
    validity test of the `semver` package). The `SchemasSpec` collection is
    assumed to keep one spec per nickname: `isDuplicate` asks whether the
    nickname is already present and `addSchemaSpec` stores the spec under it.
    Building the schemas themselves is asynchronous loading, so the model
    stops at the request (`Build`). */
module BidsSchema {
  import opened JsStrings
  import opened Wrappers

  /** One schema: nickname ('' for none), version and library ('' for the base schema). */
  datatype SchemaSpec = SchemaSpec(nickname: string, version: string, library: string)

  /** The schemas of a dataset, keyed by nickname. */
  datatype SchemasSpec = SchemasSpec(data: map<string, SchemaSpec>)

  datatype SchemaIssue =
    | InvalidSchemaSpecification(spec: string)
    | InvalidSchemaNickname(nickname: string, spec: string)

  /** `HEDVersion` of `dataset_description.json`: one string or an array of them. */
  datatype HedVersion = Single(version: string) | Versions(versions: seq<string>)

  /** Neither `:` nor `_` occurs. */
  predicate NoSeparators(s: string) {
    ':' !in s && '_' !in s
  }

  /** The version string that names `nickname`, `library` and `version`. */
  function SpecString(nickname: string, library: string, version: string): string {
    (if nickname == "" then "" else nickname + ":") + (if library == "" then "" else library + "_") + version
  }

  // ---------------------------------------------------------------------------
  // parseSchemaSpec
  // ---------------------------------------------------------------------------

  /** `parseSchemaSpec`: more than one `:` or `_` is an invalid specification; a
      `:` with nothing before it an invalid nickname; the text after the `_` (or
      the whole schema part) must be a valid semantic version. A failure yields
      no spec and exactly one issue. */
  function ParseSchemaSpec(schemaVersion: string, semverValid: string -> bool): (r: (Option<SchemaSpec>, seq<SchemaIssue>))
    ensures r.0.None? <==> |r.1| == 1
    ensures r.0.Some? ==> r.1 == []
    ensures CountChar(schemaVersion, ':') > 1 || CountChar(schemaVersion, '_') > 1 ==>
              r == (None, [InvalidSchemaSpecification(schemaVersion)])
    ensures CountChar(schemaVersion, ':') <= 1 && CountChar(schemaVersion, '_') <= 1
              && schemaVersion != [] && schemaVersion[0] == ':' ==>
              r == (None, [InvalidSchemaNickname("", schemaVersion)])
    ensures r.0.None? && CountChar(schemaVersion, ':') <= 1 && CountChar(schemaVersion, '_') <= 1
              && !(schemaVersion != [] && schemaVersion[0] == ':') ==>
              r == (None, [InvalidSchemaSpecification(schemaVersion)])
  {
    if CountChar(schemaVersion, ':') > 1 || CountChar(schemaVersion, '_') > 1 then
      (None, [InvalidSchemaSpecification(schemaVersion)])
    else
      var nicknameSplit := Split(schemaVersion, ':');
      if |nicknameSplit| > 1 && nicknameSplit[0] == "" then
        (None, [InvalidSchemaNickname("", schemaVersion)])
      else
        var nickname := if |nicknameSplit| > 1 then nicknameSplit[0] else "";
        var schema := if |nicknameSplit| > 1 then nicknameSplit[1] else nicknameSplit[0];
        var versionSplit := Split(schema, '_');
        var library := if |versionSplit| > 1 then versionSplit[0] else "";
        var version := if |versionSplit| > 1 then versionSplit[1] else versionSplit[0];
        if !semverValid(version) then
          (None, [InvalidSchemaSpecification(schemaVersion)])
        else
          (Some(SchemaSpec(nickname, version, library)), [])
  }

  /** Splitting at the only separator gives the two sides. */
  lemma {:induction false} SplitAtOnly(a: string, b: string, c: char)
    requires c !in a && c !in b
    ensures Split(a + [c] + b, c) == [a, b]
  {
    var s := a + [c] + b;
    assert s[|a|] == c;
    assert forall j | 0 <= j < |a| :: s[j] == a[j];
    assert IndexOf(s, c) == |a|;
    assert s[..|a|] == a && s[|a| + 1..] == b;
    SplitNone(b, c);
  }

  /** A string without the separator is one part. */
  lemma {:induction false} SplitNone(s: string, c: char)
    requires c !in s
    ensures Split(s, c) == [s]
  {
  }

  /** Counting a character over a string made of two pieces around one character. */
  lemma {:induction false} CountAround(a: string, x: char, b: string, c: char)
    ensures CountChar(a + [x] + b, c) == CountChar(a, c) + (if x == c then 1 else 0) + CountChar(b, c)
  {
    CountCharAppend(a + [x], b, c);
    CountCharAppend(a, [x], c);
    assert [x][..0] == [];
  }

  /** A string with at most one separator is one part, or two parts around it. */
  lemma {:induction false} SplitAtMostOne(s: string, c: char) returns (parts: seq<string>)
    requires CountChar(s, c) <= 1
    ensures parts == Split(s, c) && 1 <= |parts| <= 2
    ensures forall i | 0 <= i < |parts| :: c !in parts[i]
    ensures |parts| == 1 <==> c !in s
    ensures |parts| == 1 ==> parts[0] == s
    ensures |parts| == 2 ==> s == parts[0] + [c] + parts[1]
  {
    parts := Split(s, c);
    SplitCount(s, c);
    SplitParts(s, c);
    SplitJoin(s, c);
    CountCharZero(s, c);
    if |parts| == 2 {
      assert parts[1..] == [parts[1]];
      assert Join(parts, [c]) == parts[0] + [c] + parts[1];
    }
  }

  /** A prefix joined to `rest` by the separator `c` (or `rest` alone when
      the prefix is empty) splits back into its pieces and holds no more `c`
      and no more of another separator `d` than `rest` does. */
  lemma {:induction false} PrefixJoin(prefix: string, rest: string, c: char, d: char)
    requires c !in prefix && c !in rest && d != c && d !in prefix
    ensures var s := (if prefix == "" then "" else prefix + [c]) + rest;
      && Split(s, c) == (if prefix == "" then [rest] else [prefix, rest])
      && CountChar(s, c) <= 1
      && CountChar(s, d) == CountChar(rest, d)
  {
    var s := (if prefix == "" then "" else prefix + [c]) + rest;
    CountCharZero(rest, c);
    if prefix == "" {
      assert s == rest;
      SplitNone(rest, c);
    } else {
      assert s == prefix + [c] + rest;
      SplitAtOnly(prefix, rest, c);
      CountCharZero(prefix, c);
      CountCharZero(prefix, d);
      CountAround(prefix, c, rest, c);
      CountAround(prefix, c, rest, d);
    }
  }

  /** `ParseSchemaSpec` once the two splits are known and the version is valid. */
  lemma {:induction false} ParseOfParts(schemaVersion: string, semverValid: string -> bool,
                                        nickname: string, schema: string, library: string, version: string)
    requires CountChar(schemaVersion, ':') <= 1 && CountChar(schemaVersion, '_') <= 1
    requires Split(schemaVersion, ':') == (if nickname == "" then [schema] else [nickname, schema])
    requires Split(schema, '_') == [library, version] || (library == "" && Split(schema, '_') == [version])
    requires semverValid(version)
    ensures ParseSchemaSpec(schemaVersion, semverValid) == (Some(SchemaSpec(nickname, version, library)), [])
  {
  }

  /** Round trip: a version string assembled from a nickname, a library and a
      valid version, none of which holds a separator, parses back into them. */
  lemma {:induction false} ParseSpecString(nickname: string, library: string, version: string, semverValid: string -> bool)
    requires NoSeparators(nickname) && NoSeparators(library) && NoSeparators(version)
    requires semverValid(version)
    ensures ParseSchemaSpec(SpecString(nickname, library, version), semverValid)
            == (Some(SchemaSpec(nickname, version, library)), [])
  {
    var schema := (if library == "" then "" else library + "_") + version;
    var s := SpecString(nickname, library, version);
    AppendAssoc(if nickname == "" then "" else nickname + ":", if library == "" then "" else library + "_", version);
    CountCharZero(version, ':');
    PrefixJoin(library, version, '_', ':');
    CountCharZero(schema, ':');
    PrefixJoin(nickname, schema, ':', '_');
    ParseOfParts(s, semverValid, nickname, schema, library, version);
  }

  /** The two sides of the only separator of a string, the first side being
      empty when there is none. */
  lemma {:induction false} SplitPair(s: string, c: char) returns (before: string, after: string)
    requires CountChar(s, c) <= 1
    ensures var parts := Split(s, c);
      before == (if |parts| > 1 then parts[0] else "") && after == (if |parts| > 1 then parts[1] else parts[0])
    ensures c !in before && c !in after
    ensures c in s <==> |Split(s, c)| > 1
    ensures s == (if |Split(s, c)| > 1 then before + [c] else "") + after
  {
    var parts := SplitAtMostOne(s, c);
    before := if |parts| > 1 then parts[0] else "";
    after := if |parts| > 1 then parts[1] else parts[0];
  }

  /** The pieces `parseSchemaSpec` cuts a string with at most one `:` and one
      `_` into, and how they make up the string. */
  lemma {:induction false} Pieces(v: string) returns (nickname: string, schema: string, library: string, version: string)
    requires CountChar(v, ':') <= 1 && CountChar(v, '_') <= 1
    ensures var ns := Split(v, ':');
      nickname == (if |ns| > 1 then ns[0] else "") && schema == (if |ns| > 1 then ns[1] else ns[0])
    ensures var vs := Split(schema, '_');
      library == (if |vs| > 1 then vs[0] else "") && version == (if |vs| > 1 then vs[1] else vs[0])
    ensures ':' !in nickname && NoSeparators(library) && NoSeparators(version)
    ensures ':' in v <==> |Split(v, ':')| > 1
    ensures v == (if |Split(v, ':')| > 1 then nickname + ":" else "")
                 + (if |Split(schema, '_')| > 1 then library + "_" else "") + version
  {
    nickname, schema := SplitPair(v, ':');
    assert ":" == [':'] && "_" == ['_'];
    var front := if |Split(v, ':')| > 1 then nickname + [':'] else "";
    CountCharAppend(front, schema, '_');
    library, version := SplitPair(schema, '_');
    var middle := if |Split(schema, '_')| > 1 then library + ['_'] else "";
    Regroup(v, front, schema, middle, version);
  }

  lemma {:induction false} Regroup(v: string, front: string, schema: string, middle: string, version: string)
    requires v == front + schema && schema == middle + version
    ensures v == front + middle + version
  {
  }

  /** A spec that parses is made of the pieces of its string. */
  lemma {:induction false} ParsedPieces(schemaVersion: string, semverValid: string -> bool)
    returns (nickname: string, library: string, version: string, underscore: bool)
    requires ParseSchemaSpec(schemaVersion, semverValid).0.Some?
    ensures ParseSchemaSpec(schemaVersion, semverValid).0.value == SchemaSpec(nickname, version, library)
    ensures ':' !in nickname && NoSeparators(library) && NoSeparators(version) && semverValid(version)
    ensures ':' in schemaVersion <==> nickname != ""
    ensures schemaVersion == (if nickname == "" then "" else nickname + ":")
                             + (if underscore then library + "_" else "") + version
    ensures !underscore ==> library == ""
  {
    assert CountChar(schemaVersion, ':') <= 1 && CountChar(schemaVersion, '_') <= 1;
    var schema;
    nickname, schema, library, version := Pieces(schemaVersion);
    underscore := |Split(schema, '_')| > 1;
    assert |Split(schemaVersion, ':')| > 1 ==> nickname != "";
  }

  /** The converse: a spec that parses names the pieces the string is made of.
      The nickname is present exactly when the string has a `:`, and the
      string is the one `SpecString` builds from the spec, except that an
      empty library may still have been written with its `_`. */
  lemma {:induction false} ParsedSpecRebuilds(schemaVersion: string, semverValid: string -> bool)
    requires ParseSchemaSpec(schemaVersion, semverValid).0.Some?
    ensures var sp := ParseSchemaSpec(schemaVersion, semverValid).0.value;
      && ':' !in sp.nickname && NoSeparators(sp.library) && NoSeparators(sp.version)
      && semverValid(sp.version)
      && (':' in schemaVersion <==> sp.nickname != "")
      && (schemaVersion == SpecString(sp.nickname, sp.library, sp.version)
          || (sp.library == "" && schemaVersion == SpecString(sp.nickname, "", "_" + sp.version)))
  {
    var nickname, library, version, underscore := ParsedPieces(schemaVersion, semverValid);
    RebuildPieces(schemaVersion, nickname, library, version, underscore);
  }

  lemma {:induction false} RebuildPieces(v: string, nickname: string, library: string, version: string, underscore: bool)
    requires v == (if nickname == "" then "" else nickname + ":") + (if underscore then library + "_" else "") + version
    requires !underscore ==> library == ""
    ensures v == SpecString(nickname, library, version)
            || (library == "" && v == SpecString(nickname, "", "_" + version))
  {
    var front := if nickname == "" then "" else nickname + ":";
    if underscore && library == "" {
      assert v == front + "_" + version;
      assert front + "_" + version == front + ("_" + version);
      assert SpecString(nickname, "", "_" + version) == front + ("_" + version);
    }
  }

  // ---------------------------------------------------------------------------
  // parseSchemasSpec
  // ---------------------------------------------------------------------------

  /** `Array.isArray(hedVersion) ? hedVersion : [hedVersion]`. */
  function ProcessVersion(hedVersion: HedVersion): (r: seq<string>)
    ensures hedVersion.Single? ==> r == [hedVersion.version]
    ensures hedVersion.Versions? ==> r == hedVersion.versions
  {
    match hedVersion
    case Single(v) => [v]
    case Versions(vs) => vs
  }

  /** What the loop of `parseSchemasSpec` holds after the given versions. A
      malformed version leaves both unchanged (the result of `concat` is
      dropped); a nickname seen before adds one issue; any other spec is added. */
  function Collect(versions: seq<string>, semverValid: string -> bool): (SchemasSpec, seq<SchemaIssue>)
  {
    if versions == [] then (SchemasSpec(map[]), [])
    else
      var (schemasSpec, issues) := Collect(versions[..|versions| - 1], semverValid);
      var schemaVersion := versions[|versions| - 1];
      var (schemaSpec, verIssues) := ParseSchemaSpec(schemaVersion, semverValid);
      if verIssues != [] then (schemasSpec, issues)
      else if schemaSpec.value.nickname in schemasSpec.data then
        (schemasSpec, issues + [InvalidSchemaNickname(schemaSpec.value.nickname, schemaVersion)])
      else
        (SchemasSpec(schemasSpec.data[schemaSpec.value.nickname := schemaSpec.value]), issues)
  }

  /** `parseSchemasSpec`. */
  method ParseSchemasSpec(hedVersion: HedVersion, semverValid: string -> bool)
    returns (schemasSpec: SchemasSpec, issues: seq<SchemaIssue>)
    ensures (schemasSpec, issues) == Collect(ProcessVersion(hedVersion), semverValid)
  {
    schemasSpec := SchemasSpec(map[]);
    var processVersion := ProcessVersion(hedVersion);
    issues := [];
    for i := 0 to |processVersion|
      invariant (schemasSpec, issues) == Collect(processVersion[..i], semverValid)
    {
      assert processVersion[..i + 1][..i] == processVersion[..i];
      var schemaVersion := processVersion[i];
      var (schemaSpec, verIssues) := ParseSchemaSpec(schemaVersion, semverValid);
      if |verIssues| > 0 {
        // the source concatenates onto `issues` and drops the result
      } else if schemaSpec.value.nickname in schemasSpec.data {
        issues := issues + [InvalidSchemaNickname(schemaSpec.value.nickname, schemaVersion)];
      } else {
        schemasSpec := SchemasSpec(schemasSpec.data[schemaSpec.value.nickname := schemaSpec.value]);
      }
    }
    assert processVersion[..|processVersion|] == processVersion;
  }

  /** The specs of the versions that parse, in order. */
  function WellFormed(versions: seq<string>, semverValid: string -> bool): (r: seq<SchemaSpec>)
    ensures |r| <= |versions|
  {
    if versions == [] then []
    else
      var spec := ParseSchemaSpec(versions[|versions| - 1], semverValid).0;
      WellFormed(versions[..|versions| - 1], semverValid) + (if spec.Some? then [spec.value] else [])
  }

  /** Every version that parses ends up either stored or reported as a
      duplicate, and every issue reports a duplicate nickname: malformed
      versions leave no trace. */
  lemma {:induction false} CollectCounts(versions: seq<string>, semverValid: string -> bool)
    ensures var (schemasSpec, issues) := Collect(versions, semverValid);
      && |issues| + |schemasSpec.data.Keys| == |WellFormed(versions, semverValid)|
      && forall k | 0 <= k < |issues| :: issues[k].InvalidSchemaNickname?
  {
    if versions != [] {
      CollectCounts(versions[..|versions| - 1], semverValid);
      var (schemasSpec, issues) := Collect(versions[..|versions| - 1], semverValid);
      var (spec, verIssues) := ParseSchemaSpec(versions[|versions| - 1], semverValid);
      if verIssues == [] && spec.value.nickname !in schemasSpec.data {
        assert schemasSpec.data[spec.value.nickname := spec.value].Keys == schemasSpec.data.Keys + {spec.value.nickname};
      }
    }
  }

  /** The nicknames stored are exactly those of `specs`. */
  ghost predicate SameNicknames(data: map<string, SchemaSpec>, specs: seq<SchemaSpec>) {
    forall nickname :: nickname in data <==> exists i | 0 <= i < |specs| :: specs[i].nickname == nickname
  }

  /** Each nickname is stored with the first of `specs` that carries it. */
  ghost predicate FirstOfEach(data: map<string, SchemaSpec>, specs: seq<SchemaSpec>) {
    forall nickname | nickname in data ::
      exists i | 0 <= i < |specs| :: specs[i] == data[nickname] && forall j | 0 <= j < i :: specs[j].nickname != nickname
  }

  /** One version more: the specs that parse and what is stored. */
  lemma {:induction false} CollectStep(versions: seq<string>, semverValid: string -> bool)
    requires versions != []
    ensures var init := versions[..|versions| - 1];
      var spec := ParseSchemaSpec(versions[|versions| - 1], semverValid).0;
      var data0 := Collect(init, semverValid).0.data;
      && WellFormed(versions, semverValid) == WellFormed(init, semverValid) + (if spec.Some? then [spec.value] else [])
      && Collect(versions, semverValid).0.data
         == if spec.None? || spec.value.nickname in data0 then data0 else data0[spec.value.nickname := spec.value]
  {
  }

  /** The map and the spec list after one more version, given the previous ones. */
  predicate StepOf(data0: map<string, SchemaSpec>, specs0: seq<SchemaSpec>, spec: Option<SchemaSpec>,
                   data: map<string, SchemaSpec>, specs: seq<SchemaSpec>)
  {
    && specs == specs0 + (if spec.Some? then [spec.value] else [])
    && data == if spec.None? || spec.value.nickname in data0 then data0 else data0[spec.value.nickname := spec.value]
  }

  lemma SameNicknamesStep(data0: map<string, SchemaSpec>, specs0: seq<SchemaSpec>, spec: Option<SchemaSpec>,
                          data: map<string, SchemaSpec>, specs: seq<SchemaSpec>)
    requires SameNicknames(data0, specs0) && StepOf(data0, specs0, spec, data, specs)
    ensures SameNicknames(data, specs)
  {
    forall nickname
      ensures nickname in data <==> exists i | 0 <= i < |specs| :: specs[i].nickname == nickname
    {
      if nickname in data0 {
        var i :| 0 <= i < |specs0| && specs0[i].nickname == nickname;
        assert specs[i] == specs0[i];
      }
      if spec.Some? && spec.value.nickname == nickname {
        assert specs[|specs0|] == spec.value;
      }
      if exists i | 0 <= i < |specs| :: specs[i].nickname == nickname {
        var i :| 0 <= i < |specs| && specs[i].nickname == nickname;
        if i < |specs0| {
          assert specs0[i] == specs[i];
        }
      }
    }
  }

  lemma FirstOfEachStep(data0: map<string, SchemaSpec>, specs0: seq<SchemaSpec>, spec: Option<SchemaSpec>,
                        data: map<string, SchemaSpec>, specs: seq<SchemaSpec>)
    requires FirstOfEach(data0, specs0) && SameNicknames(data0, specs0)
    requires StepOf(data0, specs0, spec, data, specs)
    ensures FirstOfEach(data, specs)
  {
    forall nickname | nickname in data
      ensures exists i | 0 <= i < |specs| :: specs[i] == data[nickname]
                && forall j | 0 <= j < i :: specs[j].nickname != nickname
    {
      if nickname in data0 {
        var i :| 0 <= i < |specs0| && specs0[i] == data0[nickname]
                  && forall j | 0 <= j < i :: specs0[j].nickname != nickname;
        assert data[nickname] == data0[nickname];
        assert specs[i] == specs0[i];
        assert forall j | 0 <= j < i :: specs[j] == specs0[j];
      } else {
        var i := |specs0|;
        assert specs[i] == spec.value == data[nickname];
        forall j | 0 <= j < i
          ensures specs[j].nickname != nickname
        {
          assert specs[j] == specs0[j];
        }
      }
    }
  }

  /** The nicknames stored are those of the versions that parse. */
  lemma {:induction false} CollectNicknames(versions: seq<string>, semverValid: string -> bool)
    ensures SameNicknames(Collect(versions, semverValid).0.data, WellFormed(versions, semverValid))
  {
    if versions != [] {
      var init := versions[..|versions| - 1];
      CollectNicknames(init, semverValid);
      CollectStep(versions, semverValid);
      SameNicknamesStep(Collect(init, semverValid).0.data, WellFormed(init, semverValid),
                        ParseSchemaSpec(versions[|versions| - 1], semverValid).0,
                        Collect(versions, semverValid).0.data, WellFormed(versions, semverValid));
    }
  }

  /** Each nickname is stored with the FIRST spec that carried it: later
      specs under the same nickname are reported, not stored. */
  lemma {:induction false} CollectFirstWins(versions: seq<string>, semverValid: string -> bool)
    ensures FirstOfEach(Collect(versions, semverValid).0.data, WellFormed(versions, semverValid))
  {
    if versions != [] {
      var init := versions[..|versions| - 1];
      CollectFirstWins(init, semverValid);
      CollectNicknames(init, semverValid);
      CollectStep(versions, semverValid);
      FirstOfEachStep(Collect(init, semverValid).0.data, WellFormed(init, semverValid),
                      ParseSchemaSpec(versions[|versions| - 1], semverValid).0,
                      Collect(versions, semverValid).0.data, WellFormed(versions, semverValid));
    }
  }

  // ---------------------------------------------------------------------------
  // buildBidsSchemas
  // ---------------------------------------------------------------------------

  /** The value passed as `schemaDefinition`: a `SchemasSpec`, or anything else. */
  datatype SchemaDefinition = SpecsDefinition(specs: SchemasSpec) | OtherDefinition

  /** Whether the schemas are built, from which specification (`null` for
      none), or which issues are returned instead. */
  datatype BuildOutcome = NotBuilt(issues: seq<SchemaIssue>) | Build(specs: Option<SchemasSpec>)

  /** JavaScript truthiness of the `HEDVersion` value: only the empty string is falsy. */
  predicate Truthy(hedVersion: HedVersion) {
    !(hedVersion.Single? && hedVersion.version == "")
  }

  /** `validateSchemasSpec`. For anything other than a `SchemasSpec` it returns
      a bare issue rather than an array of issues. */
  function ValidateSchemasSpec(definition: SchemaDefinition): (r: (Option<SchemasSpec>, Option<SchemaIssue>))
    ensures definition.SpecsDefinition? ==> r == (Some(definition.specs), None)
    ensures definition.OtherDefinition? ==> r.0.None? && r.1.Some?
  {
    match definition
    case SpecsDefinition(specs) => (Some(specs), None)
    case OtherDefinition => (None, Some(InvalidSchemaSpecification("")))
  }

  /** `buildBidsSchemas`, up to the point where the schemas are loaded.
      `hedVersion` is `datasetDescription.jsonData.HEDVersion` (`None` when the
      JSON data or the field is missing). Schemas are built exactly when no
      issue was collected. With neither a definition nor a version there is
      one issue. A definition that is not a `SchemasSpec` comes back as a bare
      issue whose `length` is undefined, so the test `issues.length > 0` fails
      and building is requested from `null`. */
  function BuildBidsSchemas(hedVersion: Option<HedVersion>, schemaDefinition: Option<SchemaDefinition>,
                            semverValid: string -> bool): (r: BuildOutcome)
    ensures r.NotBuilt? ==> r.issues != []
    ensures schemaDefinition.None? && (hedVersion.None? || !Truthy(hedVersion.value)) ==>
              r == NotBuilt([InvalidSchemaSpecification("no schema available")])
    ensures schemaDefinition.Some? && schemaDefinition.value.SpecsDefinition? ==>
              r == Build(Some(schemaDefinition.value.specs))
    ensures schemaDefinition == Some(OtherDefinition) ==> r == Build(None)
    ensures schemaDefinition.None? && hedVersion.Some? && Truthy(hedVersion.value) ==>
              var (specs, issues) := Collect(ProcessVersion(hedVersion.value), semverValid);
              r == (if issues == [] then Build(Some(specs)) else NotBuilt(issues))
  {
    if schemaDefinition.Some? then
      var (specs, issue) := ValidateSchemasSpec(schemaDefinition.value);
      // a bare issue has no `length`: only an empty array reaches this branch as an array
      Build(specs)
    else if hedVersion.Some? && Truthy(hedVersion.value) then
      var (specs, issues) := Collect(ProcessVersion(hedVersion.value), semverValid);
      if |issues| > 0 then NotBuilt(issues) else Build(Some(specs))
    else
      NotBuilt([InvalidSchemaSpecification("no schema available")])
  }

  /** A version string repeated under the same nickname is reported once per
      repetition and stored once. */
  lemma {:induction false} DuplicateReported(v: string, semverValid: string -> bool)
    requires ParseSchemaSpec(v, semverValid).0.Some?
    ensures var sp := ParseSchemaSpec(v, semverValid).0.value;
      Collect([v, v], semverValid) == (SchemasSpec(map[sp.nickname := sp]), [InvalidSchemaNickname(sp.nickname, v)])
  {
    var sp := ParseSchemaSpec(v, semverValid).0.value;
    assert [v, v][..1] == [v];
    assert [v][..0] == [];
    assert ParseSchemaSpec(v, semverValid).1 == [];
    assert Collect([], semverValid) == (SchemasSpec(map[]), []);
    assert map[][sp.nickname := sp] == map[sp.nickname := sp];
    var once := Collect([v], semverValid);
    assert once == (SchemasSpec(map[sp.nickname := sp]), []);
    assert Collect([v, v], semverValid) == (once.0, once.1 + [InvalidSchemaNickname(sp.nickname, v)]);
    assert once.1 + [InvalidSchemaNickname(sp.nickname, v)] == [InvalidSchemaNickname(sp.nickname, v)];
  }
}
