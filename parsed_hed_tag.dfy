/**
 * A HED tag resolved against a schema (parser/parsedHedTag.js): the path
 * algebra on tag strings (tag name, parent, ancestors, descent), equivalence,
 * formatting, the getters derived from the schema entry, and the unit
 * matcher `validateUnits`.
 *
 * The schema is an abstract record. Its tag entries are plain tags or value
 * (`#`) tags. Its units carry the flags and derivative forms that the matcher
 * reads. The tag converter, `longExtend`/`extend` and `getTagLevels` are code
 * this model does not see, so they are parameters (`Converter`).
 */
module HedTag {
  import opened JsStrings
  import opened Wrappers

  /** A unit of the schema: the prefix and symbol flags and its derivative forms. */
  datatype Unit = Unit(name: string, isPrefixUnit: bool, isUnitSymbol: bool, derivativeUnits: seq<string>)

  /** A unit class; `defaultUnits` is its `defaultUnits` attribute value, if any. */
  datatype UnitClass = UnitClass(name: string, defaultUnits: Option<string>)

  /** An entry of the schema's tag table: a plain tag, or a value-taking (`#`) tag with its parent. */
  datatype SchemaEntry =
    | PlainTag(longName: string)
    | ValueTag(longName: string, parent: SchemaEntry, unitClasses: seq<UnitClass>, defaultUnits: Option<string>)

  /**
   * A loaded schema. `id` stands for object identity, so two schemas are
   * `===` exactly when they are equal here. `tagAttributes` is what
   * `tagHasAttribute` answers. `unitClassUnits` gives the units of each
   * registered unit class. `allUnits` lists the entries of the map
   * `entries.allUnits` (unit name, unit) in insertion order.
   */
  datatype Schema = Schema(
    id: nat,
    prefix: string,
    tagAttributes: map<string, set<string>>,
    unitClassUnits: map<string, seq<Unit>>,
    allUnits: seq<(string, Unit)>)

  /** The token a tag is built from: its text, bounds, and library nickname ('' for the base schema). */
  datatype TagSpec = TagSpec(tag: string, bounds: (nat, nat), library: string)

  /** Why building a tag failed. */
  datatype TagIssue =
    | UnmatchedLibrarySchema(tag: string, library: string)
    | UnmatchedBaseSchema(tag: string)
    | ConversionIssue(code: string)

  /** The collaborators this model does not see. */
  datatype Converter = Converter(
    convert: (TagSpec, map<string, Schema>) -> Result<(SchemaEntry, string), TagIssue>,
    longExtend: (SchemaEntry, string) -> string,
    extend: (SchemaEntry, string) -> string,
    tagLevels: string -> seq<string>)

  /** The fields a `ParsedHedTag` holds once constructed. */
  datatype ParsedHedTag = ParsedHedTag(
    originalTag: string,
    originalBounds: (nat, nat),
    schema: Schema,
    schemaTag: Option<SchemaEntry>,
    remainder: string,
    canonicalTag: string,
    formattedTag: string)

  /** A value passed where the source accepts a tag or a string. */
  datatype TagOrString = TagValue(tag: ParsedHedTag) | StringValue(text: string)

  // ---------------------------------------------------------------- tag paths

  /** `getTagName(s)`: the text after the last `sep`, or `s` when there is none. */
  function TagName(s: string, sep: char): (r: string)
    ensures sep !in r
    ensures |r| <= |s| && r == s[|s| - |r|..]
    ensures r == s <==> sep !in s
  {
    var k := LastIndexOf(s, sep);
    if k == -1 then s else s[k + 1..]
  }

  /** `getParentTag(s)`: the text before the last `sep`, or `s` when there is none. */
  function ParentTag(s: string, sep: char): (r: string)
    ensures |r| <= |s| && r == s[..|r|]
    ensures r == s <==> sep !in s
    ensures sep in s ==> |r| < |s|
  {
    var k := LastIndexOf(s, sep);
    if k == -1 then s else s[..k]
  }

  /** Parent, separator and name put back together give the tag. */
  lemma TagPathJoin(s: string, sep: char)
    requires sep in s
    ensures ParentTag(s, sep) + [sep] + TagName(s, sep) == s
  {
    var k := LastIndexOf(s, sep);
    assert s == s[..k] + [s[k]] + s[k + 1..];
  }

  /** A tag name is `#` exactly for the tag `#` and the tags ending in `/#`. */
  lemma TagNameHash(s: string)
    ensures TagName(s, '/') == "#" <==> s == "#" || (|s| >= 2 && s[|s| - 2..] == "/#")
  {
    var k := LastIndexOf(s, '/');
    if |s| >= 2 && s[|s| - 2..] == "/#" {
      assert s[|s| - 2] == '/' && s[|s| - 1] == '#';
      assert k == |s| - 2;
    }
    if k >= 0 && TagName(s, '/') == "#" {
      assert s[k + 1..] == "#";
      assert s[|s| - 2..] == [s[k]] + s[k + 1..];
    }
  }

  /** The original tag's trailing level (`originalTagName`). */
  function OriginalTagName(t: ParsedHedTag): string {
    TagName(t.originalTag, '/')
  }

  /** The strings `ancestorIterator(s)` yields, in order. */
  function Ancestors(s: string): seq<string>
    decreases |s|
  {
    if LastIndexOf(s, '/') >= 0 then [s] + Ancestors(ParentTag(s, '/')) else [s]
  }

  /** `ancestorIterator(s)`, collected into a list. */
  method AncestorIterator(tagString: string) returns (ancestors: seq<string>)
    ensures ancestors == Ancestors(tagString)
  {
    var current := tagString;
    ancestors := [];
    while LastIndexOf(current, '/') >= 0
      invariant ancestors + Ancestors(current) == Ancestors(tagString)
      decreases |current|
    {
      ancestors := ancestors + [current];
      current := ParentTag(current, '/');
    }
    ancestors := ancestors + [current];
  }

  /** There is one ancestor per `/`, plus the tag itself. */
  lemma {:induction false} AncestorsCount(s: string)
    ensures |Ancestors(s)| == CountChar(s, '/') + 1
    decreases |s|
  {
    var k := LastIndexOf(s, '/');
    if k >= 0 {
      AncestorsCount(s[..k]);
      assert s == s[..k] + [s[k]] + s[k + 1..];
      CountCharZero(s[k + 1..], '/');
      CountCharAppend(s[..k] + [s[k]], s[k + 1..], '/');
      CountCharAppend(s[..k], [s[k]], '/');
      assert [s[k]][..0] == [];
    } else {
      CountCharZero(s, '/');
    }
  }

  /** Entry `i` of `chain` is the parent of entry `i - 1`, and strictly shorter. */
  predicate ParentLink(chain: seq<string>, i: nat)
    requires 0 < i < |chain|
  {
    chain[i] == ParentTag(chain[i - 1], '/') && |chain[i]| < |chain[i - 1]|
  }

  /** The tag comes first; every later ancestor is the parent of the one before, strictly shorter. */
  lemma {:induction false} AncestorsChain(s: string)
    ensures Ancestors(s)[0] == s
    ensures forall i | 0 < i < |Ancestors(s)| :: ParentLink(Ancestors(s), i)
    decreases |s|
  {
    if LastIndexOf(s, '/') >= 0 {
      var parent := ParentTag(s, '/');
      AncestorsChain(parent);
      var chain, rest := Ancestors(s), Ancestors(parent);
      assert chain == [s] + rest;
      forall i | 0 < i < |chain|
        ensures ParentLink(chain, i)
      {
        assert chain[i] == rest[i - 1];
        if i > 1 {
          assert ParentLink(rest, i - 1);
        }
      }
    }
  }

  /** The last ancestor is the first level of the tag: it has no `/`. */
  lemma {:induction false} AncestorsLast(s: string)
    ensures '/' !in Ancestors(s)[|Ancestors(s)| - 1]
    decreases |s|
  {
    if LastIndexOf(s, '/') >= 0 {
      AncestorsLast(ParentTag(s, '/'));
    }
  }

  /** The ancestors of `s` are `s` and exactly its prefixes that a `/` follows. */
  lemma {:induction false} AncestorsIff(s: string, a: string)
    ensures a in Ancestors(s) <==> a == s || (|a| < |s| && s[..|a|] == a && s[|a|] == '/')
    decreases |s|
  {
    var k := LastIndexOf(s, '/');
    if k >= 0 {
      var p := s[..k];
      AncestorsIff(p, a);
      if a != s && |a| < |s| && s[..|a|] == a && s[|a|] == '/' {
        assert |a| <= k;
        if |a| < k {
          assert p[..|a|] == a && p[|a|] == '/';
        }
      }
    }
  }

  /** Ancestry is transitive. */
  lemma AncestorsTransitive(s: string, a: string, b: string)
    requires a in Ancestors(s) && b in Ancestors(a)
    ensures b in Ancestors(s)
  {
    AncestorsIff(s, a);
    AncestorsIff(a, b);
    AncestorsIff(s, b);
    if a != s && b != a {
      assert s[..|a|][..|b|] == s[..|b|];
    }
  }

  // ------------------------------------------------------ descent, equivalence

  /** What `t.isDescendantOf(parent)` answers. */
  predicate DescendsFrom(t: ParsedHedTag, parent: TagOrString) {
    match parent
    case TagValue(p) => t.schema == p.schema && p.formattedTag in Ancestors(t.formattedTag)
    case StringValue(s) => s in Ancestors(t.formattedTag)
  }

  /** `isDescendantOf`: a tag from another schema never matches; otherwise look through the ancestors. */
  method IsDescendantOf(t: ParsedHedTag, parent: TagOrString) returns (r: bool)
    ensures r == DescendsFrom(t, parent)
  {
    var target: string;
    match parent {
      case TagValue(p) =>
        if t.schema != p.schema {
          return false;
        }
        target := p.formattedTag;
      case StringValue(s) =>
        target := s;
    }
    var ancestors := AncestorIterator(t.formattedTag);
    for i := 0 to |ancestors|
      invariant target !in ancestors[..i]
    {
      if ancestors[i] == target {
        return true;
      }
    }
    assert ancestors[..|ancestors|] == ancestors;
    return false;
  }

  /** Descent by string means "is the tag, or a prefix of it that a `/` follows"; it is reflexive. */
  lemma DescendsFromString(t: ParsedHedTag, s: string)
    ensures DescendsFrom(t, StringValue(s)) <==>
      s == t.formattedTag || (|s| < |t.formattedTag| && t.formattedTag[..|s|] == s && t.formattedTag[|s|] == '/')
    ensures DescendsFrom(t, TagValue(t))
  {
    AncestorsIff(t.formattedTag, s);
    AncestorsIff(t.formattedTag, t.formattedTag);
  }

  /** A tag of another schema is never an ancestor; descent is transitive. */
  lemma DescendsFromTag(t: ParsedHedTag, p: ParsedHedTag, q: ParsedHedTag)
    ensures t.schema != p.schema ==> !DescendsFrom(t, TagValue(p))
    ensures DescendsFrom(t, TagValue(p)) && DescendsFrom(p, TagValue(q)) ==> DescendsFrom(t, TagValue(q))
  {
    if DescendsFrom(t, TagValue(p)) && DescendsFrom(p, TagValue(q)) {
      AncestorsTransitive(t.formattedTag, p.formattedTag, q.formattedTag);
    }
  }

  /** `t.equivalent(other)`: `other` is a tag with the same formatted text and the same schema. */
  predicate Equivalent(t: ParsedHedTag, other: TagOrString) {
    other.TagValue? && t.formattedTag == other.tag.formattedTag && t.schema == other.tag.schema
  }

  /** Equivalence is an equivalence relation on tags, and a string is never equivalent to a tag. */
  lemma EquivalentLaws(a: ParsedHedTag, b: ParsedHedTag, c: ParsedHedTag, s: string)
    ensures Equivalent(a, TagValue(a))
    ensures Equivalent(a, TagValue(b)) ==> Equivalent(b, TagValue(a))
    ensures Equivalent(a, TagValue(b)) && Equivalent(b, TagValue(c)) ==> Equivalent(a, TagValue(c))
    ensures !Equivalent(a, StringValue(s))
  {
  }

  /** Equivalent tags descend from the same parents, and are ancestors of the same tags. */
  lemma EquivalentDescent(a: ParsedHedTag, b: ParsedHedTag, x: ParsedHedTag, p: TagOrString)
    requires Equivalent(a, TagValue(b))
    ensures DescendsFrom(a, p) == DescendsFrom(b, p)
    ensures DescendsFrom(x, TagValue(a)) == DescendsFrom(x, TagValue(b))
    ensures DescendsFrom(a, TagValue(b))
  {
    DescendsFromString(a, a.formattedTag);
  }

  // ------------------------------------------------------------- construction

  /**
   * The constructor with `_convertTag`: look the library up, convert the tag,
   * and derive the canonical and formatted forms. `_handleRemainder` does
   * nothing in the source.
   */
  function NewParsedHedTag(tagSpec: TagSpec, hedSchemas: map<string, Schema>, conv: Converter): (r: Result<ParsedHedTag, TagIssue>)
    ensures tagSpec.library !in hedSchemas && tagSpec.library != "" ==> r == Failure(UnmatchedLibrarySchema(tagSpec.tag, tagSpec.library))
    ensures tagSpec.library !in hedSchemas && tagSpec.library == "" ==> r == Failure(UnmatchedBaseSchema(tagSpec.tag))
    ensures tagSpec.library in hedSchemas ==> (r.Failure? <==> conv.convert(tagSpec, hedSchemas).Failure?)
    ensures tagSpec.library in hedSchemas && conv.convert(tagSpec, hedSchemas).Failure? ==>
              r == Failure(conv.convert(tagSpec, hedSchemas).error)
    ensures tagSpec.library in hedSchemas && conv.convert(tagSpec, hedSchemas).Success? ==>
              r.Success? && r.value.schemaTag == Some(conv.convert(tagSpec, hedSchemas).value.0)
              && r.value.remainder == conv.convert(tagSpec, hedSchemas).value.1
    ensures r.Success? ==>
      var t := r.value;
      t.originalTag == tagSpec.tag && t.originalBounds == tagSpec.bounds &&
      t.schema == hedSchemas[tagSpec.library] && t.schemaTag.Some? &&
      t.canonicalTag == conv.longExtend(t.schemaTag.value, t.remainder) &&
      t.formattedTag == ToLower(t.canonicalTag)
  {
    var schemaName := tagSpec.library;
    if schemaName !in hedSchemas then
      if schemaName != "" then Failure(UnmatchedLibrarySchema(tagSpec.tag, schemaName))
      else Failure(UnmatchedBaseSchema(tagSpec.tag))
    else
      match conv.convert(tagSpec, hedSchemas)
      case Failure(issue) => Failure(issue)
      case Success((schemaTag, remainder)) =>
        var canonicalTag := conv.longExtend(schemaTag, remainder);
        Success(ParsedHedTag(tagSpec.tag, tagSpec.bounds, hedSchemas[schemaName], Some(schemaTag), remainder,
                             canonicalTag, ToLower(canonicalTag)))
  }

  /** A constructed tag's formatted form is lower case already, and its long format is its canonical form. */
  lemma {:induction false} ConstructedForms(tagSpec: TagSpec, hedSchemas: map<string, Schema>, conv: Converter)
    requires NewParsedHedTag(tagSpec, hedSchemas, conv).Success?
    ensures var t := NewParsedHedTag(tagSpec, hedSchemas, conv).value;
      ToLower(t.formattedTag) == t.formattedTag &&
      |t.formattedTag| == |t.canonicalTag| &&
      Format(t, true, conv) == WithPrefix(t.schema, t.canonicalTag)
  {
    var t := NewParsedHedTag(tagSpec, hedSchemas, conv).value;
    ToLowerIdempotent(t.canonicalTag);
  }

  // --------------------------------------------------------------- formatting

  /** `prefix + ':' + name` when the schema has a non-empty prefix, else `name`. */
  function WithPrefix(schema: Schema, name: string): (r: string)
    ensures schema.prefix != "" ==> r == schema.prefix + [':'] + name
    ensures schema.prefix == "" ==> r == name
  {
    if schema.prefix != "" then schema.prefix + ":" + name else name
  }

  /** `format(long)`: the long or short schema form, or the original text without a schema entry. */
  function Format(t: ParsedHedTag, long: bool, conv: Converter): (r: string)
    ensures t.schemaTag.None? ==> r == ToString(t)
    ensures t.schemaTag.Some? ==>
      r == WithPrefix(t.schema, if long then conv.longExtend(t.schemaTag.value, t.remainder)
                                else conv.extend(t.schemaTag.value, t.remainder))
  {
    var tagName :=
      match t.schemaTag
      case Some(entry) => if long then conv.longExtend(entry, t.remainder) else conv.extend(entry, t.remainder)
      case None => t.originalTag;
    WithPrefix(t.schema, tagName)
  }

  /** `toString()`: the original text, with the schema prefix when there is one. */
  function ToString(t: ParsedHedTag): (r: string)
    ensures t.schema.prefix != "" ==> |r| == |t.schema.prefix| + 1 + |t.originalTag| && r[|t.schema.prefix|] == ':'
    ensures t.schema.prefix != "" ==> r[..|t.schema.prefix|] == t.schema.prefix
    ensures t.schema.prefix == "" ==> r == t.originalTag
    ensures |r| >= |t.originalTag| && r[|r| - |t.originalTag|..] == t.originalTag
  {
    WithPrefix(t.schema, t.originalTag)
  }

  // --------------------------------------------------------- schema getters

  /** `schema.tagHasAttribute(tagName, attribute)`. */
  predicate HasAttribute(schema: Schema, tagName: string, attribute: string) {
    tagName in schema.tagAttributes && attribute in schema.tagAttributes[tagName]
  }

  /** `allowsExtensions`: never for a `#` tag; otherwise the tag or one of its levels allows it. */
  predicate AllowsExtensions(t: ParsedHedTag, conv: Converter) {
    if OriginalTagName(t) == "#" then false
    else if HasAttribute(t.schema, t.formattedTag, "extensionAllowed") then true
    else exists level | level in conv.tagLevels(t.formattedTag) :: HasAttribute(t.schema, level, "extensionAllowed")
  }

  /** A tag written `#` or `.../#` never allows extensions; one whose own entry allows them does. */
  lemma AllowsExtensionsFacts(t: ParsedHedTag, conv: Converter)
    ensures t.originalTag == "#" || (|t.originalTag| >= 2 && t.originalTag[|t.originalTag| - 2..] == "/#") ==>
      !AllowsExtensions(t, conv)
    ensures OriginalTagName(t) != "#" && HasAttribute(t.schema, t.formattedTag, "extensionAllowed") ==>
      AllowsExtensions(t, conv)
  {
    TagNameHash(t.originalTag);
  }

  /** `schemaTag`: the parent of a value tag, otherwise the entry itself. */
  function SchemaTagOf(t: ParsedHedTag): (r: Option<SchemaEntry>)
    ensures r.None? <==> t.schemaTag.None?
  {
    match t.schemaTag
    case Some(ValueTag(_, parent, _, _)) => Some(parent)
    case other => other
  }

  /** `takesValueTag`: the entry when it is a value tag. */
  function TakesValueTag(t: ParsedHedTag): (r: Option<SchemaEntry>)
    ensures r.Some? ==> r.value.ValueTag? && t.schemaTag == r
  {
    if t.schemaTag.Some? && t.schemaTag.value.ValueTag? then t.schemaTag else None
  }

  /** `takesValue`. */
  predicate TakesValue(t: ParsedHedTag) {
    TakesValueTag(t).Some?
  }

  /** `hasUnitClass`; the entry's `hasUnitClasses` is taken to mean "has at least one unit class". */
  predicate HasUnitClass(t: ParsedHedTag) {
    TakesValue(t) && TakesValueTag(t).value.unitClasses != []
  }

  /** `unitClasses`. */
  function UnitClasses(t: ParsedHedTag): (r: seq<UnitClass>)
    ensures r != [] <==> HasUnitClass(t)
  {
    if HasUnitClass(t) then TakesValueTag(t).value.unitClasses else []
  }

  /** A truthy attribute value: present and not ''. */
  predicate Truthy(v: Option<string>) {
    v.Some? && v.value != ""
  }

  /** `defaultUnit`; `None` is the `undefined` a unit class without the attribute gives. */
  function DefaultUnit(t: ParsedHedTag): Option<string> {
    if !HasUnitClass(t) then Some("")
    else if Truthy(TakesValueTag(t).value.defaultUnits) then TakesValueTag(t).value.defaultUnits
    else UnitClasses(t)[0].defaultUnits
  }

  /** How the getters relate: they all read the value-tag entry, and the default unit comes from the first place that has it. */
  lemma GettersAgree(t: ParsedHedTag)
    ensures TakesValue(t) <==> t.schemaTag.Some? && t.schemaTag.value.ValueTag?
    ensures TakesValue(t) ==> SchemaTagOf(t) == Some(t.schemaTag.value.parent)
    ensures !TakesValue(t) ==> SchemaTagOf(t) == t.schemaTag
    ensures HasUnitClass(t) ==> TakesValue(t)
    ensures !HasUnitClass(t) ==> DefaultUnit(t) == Some("")
    ensures HasUnitClass(t) && Truthy(t.schemaTag.value.defaultUnits) ==> DefaultUnit(t) == t.schemaTag.value.defaultUnits
    ensures HasUnitClass(t) && !Truthy(t.schemaTag.value.defaultUnits) ==>
      DefaultUnit(t) == t.schemaTag.value.unitClasses[0].defaultUnits
  {
  }

  // ------------------------------------------------------------------- units

  /** Every unit class of the tag is registered in its schema. */
  predicate UnitsResolvable(t: ParsedHedTag) {
    forall c | c in UnitClasses(t) :: c.name in t.schema.unitClassUnits
  }

  /** The units of a list, as a set. */
  function UnitSet(units: seq<Unit>): set<Unit> {
    set i | 0 <= i < |units| :: units[i]
  }

  /** The units of the given unit classes, gathered into one set. */
  function ClassUnits(schema: Schema, classes: seq<UnitClass>): set<Unit>
    requires forall c | c in classes :: c.name in schema.unitClassUnits
  {
    if classes == [] then {}
    else ClassUnits(schema, classes[..|classes| - 1]) + UnitSet(schema.unitClassUnits[classes[|classes| - 1].name])
  }

  /** A unit is gathered exactly when one of the classes has it. */
  lemma {:induction false} ClassUnitsMember(schema: Schema, classes: seq<UnitClass>, u: Unit)
    requires forall c | c in classes :: c.name in schema.unitClassUnits
    ensures u in ClassUnits(schema, classes) <==>
      exists i | 0 <= i < |classes| :: u in schema.unitClassUnits[classes[i].name]
  {
    if classes != [] {
      var init := classes[..|classes| - 1];
      ClassUnitsMember(schema, init, u);
      assert forall i | 0 <= i < |init| :: init[i] == classes[i];
    }
  }

  /** `validUnits`: the units of all the tag's unit classes. */
  method ValidUnits(t: ParsedHedTag) returns (units: set<Unit>)
    requires UnitsResolvable(t)
    ensures units == ClassUnits(t.schema, UnitClasses(t))
  {
    var tagUnitClasses := UnitClasses(t);
    units := {};
    for i := 0 to |tagUnitClasses|
      invariant units == ClassUnits(t.schema, tagUnitClasses[..i])
    {
      var unitClassUnits := t.schema.unitClassUnits[tagUnitClasses[i].name];
      ghost var before := units;
      for j := 0 to |unitClassUnits|
        invariant units == before + UnitSet(unitClassUnits[..j])
      {
        assert unitClassUnits[..j + 1] == unitClassUnits[..j] + [unitClassUnits[j]];
        units := units + {unitClassUnits[j]};
      }
      assert unitClassUnits[..|unitClassUnits|] == unitClassUnits;
      assert tagUnitClasses[..i + 1][..i] == tagUnitClasses[..i];
    }
    assert tagUnitClasses[..|tagUnitClasses|] == tagUnitClasses;
  }

  /** An entry of `entries.allUnits`: a unit name and its unit. */
  type UnitEntry = (string, Unit)

  /**
   * `unitStrings.sort((first, second) => second.length - first.length)`,
   * with each name kept beside its unit. `Array.prototype.sort` is stable,
   * so this is a stable sort, longest name first.
   */
  function SortByLength(entries: seq<UnitEntry>): seq<UnitEntry> {
    if entries == [] then [] else InsertByLength(SortByLength(entries[..|entries| - 1]), entries[|entries| - 1])
  }

  /** Puts `x` after every entry whose name is at least as long as its own. */
  function InsertByLength(sorted: seq<UnitEntry>, x: UnitEntry): seq<UnitEntry> {
    if sorted == [] then [x]
    else if |sorted[|sorted| - 1].0| >= |x.0| then sorted + [x]
    else InsertByLength(sorted[..|sorted| - 1], x) + [sorted[|sorted| - 1]]
  }

  predicate LongestFirst(s: seq<UnitEntry>) {
    forall i, j | 0 <= i < j < |s| :: |s[i].0| >= |s[j].0|
  }

  /** The entries whose name has length `n`, in order. */
  function OfLength(s: seq<UnitEntry>, n: nat): seq<UnitEntry> {
    if s == [] then [] else OfLength(s[..|s| - 1], n) + (if |s[|s| - 1].0| == n then [s[|s| - 1]] else [])
  }

  lemma {:induction false} OfLengthSnoc(s: seq<UnitEntry>, x: UnitEntry, n: nat)
    ensures OfLength(s + [x], n) == OfLength(s, n) + (if |x.0| == n then [x] else [])
  {
    assert (s + [x])[..|s|] == s;
  }

  lemma {:induction false} InsertElements(sorted: seq<UnitEntry>, x: UnitEntry)
    ensures multiset(InsertByLength(sorted, x)) == multiset(sorted) + multiset{x}
  {
    if sorted != [] && |sorted[|sorted| - 1].0| < |x.0| {
      var init := sorted[..|sorted| - 1];
      InsertElements(init, x);
      assert sorted == init + [sorted[|sorted| - 1]];
    }
  }

  lemma {:induction false} InsertSorted(sorted: seq<UnitEntry>, x: UnitEntry)
    requires LongestFirst(sorted)
    ensures LongestFirst(InsertByLength(sorted, x))
  {
    if sorted != [] && |sorted[|sorted| - 1].0| < |x.0| {
      var init := sorted[..|sorted| - 1];
      var last := sorted[|sorted| - 1];
      InsertSorted(init, x);
      InsertElements(init, x);
      var r := InsertByLength(init, x);
      assert InsertByLength(sorted, x) == r + [last];
      forall i | 0 <= i < |r|
        ensures |r[i].0| >= |last.0|
      {
        assert r[i] in multiset(r);
        if r[i] != x {
          assert r[i] in multiset(init);
          var k :| 0 <= k < |init| && init[k] == r[i];
          assert sorted[k] == r[i];
        }
      }
      LongestFirstSnoc(r, last);
    } else {
      assert InsertByLength(sorted, x) == sorted + [x];
      forall i | 0 <= i < |sorted|
        ensures |sorted[i].0| >= |x.0|
      {
        if i < |sorted| - 1 {
          assert |sorted[i].0| >= |sorted[|sorted| - 1].0|;
        }
      }
      LongestFirstSnoc(sorted, x);
    }
  }

  /** An entry no longer than any before it keeps the order. */
  lemma LongestFirstSnoc(s: seq<UnitEntry>, x: UnitEntry)
    requires LongestFirst(s)
    requires forall i | 0 <= i < |s| :: |s[i].0| >= |x.0|
    ensures LongestFirst(s + [x])
  {
    var out := s + [x];
    forall i, j | 0 <= i < j < |out|
      ensures |out[i].0| >= |out[j].0|
    {
      assert out[i] == s[i];
      if j < |s| {
        assert out[j] == s[j];
      }
    }
  }

  lemma {:induction false} InsertStable(sorted: seq<UnitEntry>, x: UnitEntry, n: nat)
    ensures OfLength(InsertByLength(sorted, x), n) == OfLength(sorted, n) + (if |x.0| == n then [x] else [])
  {
    if sorted == [] {
      OfLengthSnoc([], x, n);
    } else if |sorted[|sorted| - 1].0| >= |x.0| {
      OfLengthSnoc(sorted, x, n);
    } else {
      var init := sorted[..|sorted| - 1];
      var last := sorted[|sorted| - 1];
      var ofX := if |x.0| == n then [x] else [];
      var ofLast := if |last.0| == n then [last] else [];
      assert ofX == [] || ofLast == [];
      calc {
        OfLength(InsertByLength(sorted, x), n);
        OfLength(InsertByLength(init, x) + [last], n);
        { OfLengthSnoc(InsertByLength(init, x), last, n); }
        OfLength(InsertByLength(init, x), n) + ofLast;
        { InsertStable(init, x, n); }
        OfLength(init, n) + ofX + ofLast;
        OfLength(init, n) + ofLast + ofX;
        { OfLengthSnoc(init, last, n); assert sorted == init + [last]; }
        OfLength(sorted, n) + ofX;
      }
    }
  }

  /** The sort is a permutation. */
  lemma {:induction false} SortPermutes(entries: seq<UnitEntry>)
    ensures multiset(SortByLength(entries)) == multiset(entries)
  {
    if entries != [] {
      var init, last := entries[..|entries| - 1], entries[|entries| - 1];
      SortPermutes(init);
      InsertElements(SortByLength(init), last);
      assert SortByLength(entries) == InsertByLength(SortByLength(init), last);
      assert entries == init + [last];
      assert multiset(entries) == multiset(init) + multiset{last};
    }
  }

  /** The sort puts longer names first. */
  lemma {:induction false} SortOrders(entries: seq<UnitEntry>)
    ensures LongestFirst(SortByLength(entries))
  {
    if entries != [] {
      SortOrders(entries[..|entries| - 1]);
      InsertSorted(SortByLength(entries[..|entries| - 1]), entries[|entries| - 1]);
    }
  }

  /** The sort is stable: names of equal length keep their order. */
  lemma {:induction false} SortStable(entries: seq<UnitEntry>, n: nat)
    ensures OfLength(SortByLength(entries), n) == OfLength(entries, n)
  {
    if entries != [] {
      var init := entries[..|entries| - 1];
      SortStable(init, n);
      InsertStable(SortByLength(init), entries[|entries| - 1], n);
    }
  }

  /** In a longest-first list, an entry with a longer name comes earlier. */
  lemma LongerIsEarlier(s: seq<UnitEntry>, i: nat, j: nat)
    requires LongestFirst(s) && i < |s| && j < |s| && |s[j].0| > |s[i].0|
    ensures j < i
  {
  }

  /** How the scan of the unit names ended. */
  datatype UnitMatch = Matched(unit: Unit, stripped: string) | WrongCase(stripped: string) | NoMatch

  predicate LowerEq(a: string, b: string) {
    ToLower(a) == ToLower(b)
  }

  /**
   * Whether derivative form `d` of `unit` ends the search with a unit found:
   * a prefix unit the value starts with, the exact unit, or another case of
   * a unit that is not a symbol.
   */
  predicate Hit(unit: Unit, d: string, value: string, actual: string) {
    (unit.isPrefixUnit && StartsWith(value, d)) || actual == d || (LowerEq(actual, d) && !unit.isUnitSymbol)
  }

  /** The search through `ds`, the derivative forms of `unit` not yet tried; `wrongCase` records a symbol seen in another case. */
  function DerivativeScan(unit: Unit, ds: seq<string>, value: string, actual: string, wrongCase: bool): UnitMatch {
    if ds == [] then (if wrongCase then WrongCase(ParentTag(value, ' ')) else NoMatch)
    else if Hit(unit, ds[0], value, actual) then
      Matched(unit, if LowerEq(actual, ds[0]) then ParentTag(value, ' ') else Trim(value[|ds[0]|..]))
    else DerivativeScan(unit, ds[1..], value, actual, wrongCase || LowerEq(actual, ds[0]))
  }

  /** The search through one unit. */
  function UnitOutcome(unit: Unit, value: string, actual: string): UnitMatch {
    DerivativeScan(unit, unit.derivativeUnits, value, actual, false)
  }

  /** The outcome of the search through each entry's unit, in order. */
  function Outcomes(entries: seq<UnitEntry>, value: string, actual: string): (r: seq<UnitMatch>)
    ensures |r| == |entries|
  {
    seq(|entries|, i requires 0 <= i < |entries| => UnitOutcome(entries[i].1, value, actual))
  }

  /** The search through the units in order stops at the first one that decides. */
  function FirstDecided(outcomes: seq<UnitMatch>): UnitMatch {
    if outcomes == [] then NoMatch
    else if outcomes[0].NoMatch? then FirstDecided(outcomes[1..])
    else outcomes[0]
  }

  /** The value part `validateUnits` reads (`originalTagName`). */
  function UnitValue(t: ParsedHedTag): string {
    OriginalTagName(t)
  }

  /** The unit word after the value's last space, or '' when it has none. */
  function ActualUnit(value: string): string {
    if TagName(value, ' ') == value then "" else TagName(value, ' ')
  }

  /** The outcome of the search `validateUnits` makes for a tag. */
  function UnitSearch(t: ParsedHedTag): UnitMatch {
    FirstDecided(Outcomes(SortByLength(t.schema.allUnits), UnitValue(t), ActualUnit(UnitValue(t))))
  }

  /** The triple `validateUnits` returns, given the tag's valid units. */
  function UnitValidation(t: ParsedHedTag, validUnits: set<Unit>): (bool, bool, string) {
    match UnitSearch(t)
    case Matched(unit, stripped) => (true, unit in validUnits, stripped)
    case WrongCase(stripped) => (true, false, stripped)
    case NoMatch => (TagName(UnitValue(t), ' ') != UnitValue(t), false, UnitValue(t))
  }

  /**
   * The body of `validateUnits`' inner loop for one derivative form: a
   * prefix unit the value starts with, or the exact unit word, is found; the
   * unit word in another case is found unless the unit is a symbol, which is
   * noted as wrong-case instead.
   */
  method TryDerivative(unit: Unit, derivativeUnit: string, originalTagUnitValue: string, actualUnit: string,
                       noUnitFound: bool, foundWrongCaseUnit: bool, strippedValue: string)
    returns (foundUnit': bool, noUnitFound': bool, foundWrongCaseUnit': bool, strippedValue': string)
    ensures foundUnit' == Hit(unit, derivativeUnit, originalTagUnitValue, actualUnit)
    ensures foundUnit' ==>
      strippedValue' == (if LowerEq(actualUnit, derivativeUnit) then ParentTag(originalTagUnitValue, ' ')
                         else Trim(originalTagUnitValue[|derivativeUnit|..]))
    ensures !foundUnit' ==> noUnitFound' == noUnitFound
    ensures !foundUnit' ==> foundWrongCaseUnit' == (foundWrongCaseUnit || LowerEq(actualUnit, derivativeUnit))
    ensures !foundUnit' ==>
      strippedValue' == (if LowerEq(actualUnit, derivativeUnit) then ParentTag(originalTagUnitValue, ' ') else strippedValue)
  {
    foundUnit', noUnitFound', foundWrongCaseUnit', strippedValue' := false, noUnitFound, foundWrongCaseUnit, strippedValue;
    if unit.isPrefixUnit && StartsWith(originalTagUnitValue, derivativeUnit) {
      foundUnit' := true;
      noUnitFound' := false;
      strippedValue' := Trim(originalTagUnitValue[|derivativeUnit|..]);
    }
    if actualUnit == derivativeUnit {
      foundUnit' := true;
      strippedValue' := ParentTag(originalTagUnitValue, ' ');
    } else if ToLower(actualUnit) == ToLower(derivativeUnit) {
      if unit.isUnitSymbol {
        foundWrongCaseUnit' := true;
      } else {
        foundUnit' := true;
      }
      strippedValue' := ParentTag(originalTagUnitValue, ' ');
    }
  }

  /**
   * `validateUnits`' inner loop over the derivative forms of one unit. It
   * stops at the first form that finds the unit. Otherwise it reports
   * whether a symbol was seen in another case.
   */
  method ScanUnit(unit: Unit, originalTagUnitValue: string, actualUnit: string, noUnitFound: bool, strippedValue: string)
    returns (foundUnit: bool, noUnitFound': bool, foundWrongCaseUnit: bool, strippedValue': string)
    ensures foundUnit ==> UnitOutcome(unit, originalTagUnitValue, actualUnit) == Matched(unit, strippedValue')
    ensures !foundUnit ==> noUnitFound' == noUnitFound
    ensures !foundUnit ==>
      UnitOutcome(unit, originalTagUnitValue, actualUnit) == (if foundWrongCaseUnit then WrongCase(strippedValue') else NoMatch)
  {
    var ds := unit.derivativeUnits;
    foundUnit, noUnitFound', foundWrongCaseUnit, strippedValue' := false, noUnitFound, false, strippedValue;
    for j := 0 to |ds|
      invariant UnitOutcome(unit, originalTagUnitValue, actualUnit) ==
        DerivativeScan(unit, ds[j..], originalTagUnitValue, actualUnit, foundWrongCaseUnit)
      invariant noUnitFound' == noUnitFound
      invariant foundWrongCaseUnit ==> strippedValue' == ParentTag(originalTagUnitValue, ' ')
    {
      var derivativeUnit := ds[j];
      assert ds[j..][0] == derivativeUnit && ds[j..][1..] == ds[j + 1..];
      ghost var wrongCaseBefore := foundWrongCaseUnit;
      foundUnit, noUnitFound', foundWrongCaseUnit, strippedValue' :=
        TryDerivative(unit, derivativeUnit, originalTagUnitValue, actualUnit, noUnitFound', foundWrongCaseUnit, strippedValue');
      if foundUnit {
        assert DerivativeScan(unit, ds[j..], originalTagUnitValue, actualUnit, wrongCaseBefore) == Matched(unit, strippedValue');
        return;
      }
    }
  }

  /** `validateUnits(tag)`: find the unit of the tag's value, longest unit name first. */
  method ValidateUnits(tag: ParsedHedTag) returns (found: bool, valid: bool, stripped: string)
    requires UnitsResolvable(tag)
    ensures (found, valid, stripped) == UnitValidation(tag, ClassUnits(tag.schema, UnitClasses(tag)))
  {
    var originalTagUnitValue := OriginalTagName(tag);
    var tagUnitClassUnits := ValidUnits(tag);
    var unitStrings := SortByLength(tag.schema.allUnits);
    var actualUnit := TagName(originalTagUnitValue, ' ');
    var noUnitFound := false;
    if actualUnit == originalTagUnitValue {
      actualUnit := "";
      noUnitFound := true;
    }
    assert actualUnit == ActualUnit(originalTagUnitValue);
    ghost var outcomes := Outcomes(unitStrings, originalTagUnitValue, actualUnit);
    var foundUnit := false;
    var foundWrongCaseUnit := false;
    var strippedValue := "";
    for i := 0 to |unitStrings|
      invariant UnitSearch(tag) == FirstDecided(outcomes[i..])
      invariant noUnitFound == (TagName(originalTagUnitValue, ' ') == originalTagUnitValue)
    {
      var unit := unitStrings[i].1;
      assert outcomes[i] == UnitOutcome(unit, originalTagUnitValue, actualUnit);
      assert outcomes[i..][0] == outcomes[i] && outcomes[i..][1..] == outcomes[i + 1..];
      foundUnit, noUnitFound, foundWrongCaseUnit, strippedValue :=
        ScanUnit(unit, originalTagUnitValue, actualUnit, noUnitFound, strippedValue);
      if foundUnit {
        return true, unit in tagUnitClassUnits, strippedValue;
      }
      if foundWrongCaseUnit {
        return true, false, strippedValue;
      }
    }
    return !noUnitFound, false, originalTagUnitValue;
  }

  /** A derivative form that hits decides the unit as found. */
  lemma {:induction false} DerivativeScanMatched(unit: Unit, ds: seq<string>, value: string, actual: string, wrongCase: bool)
    ensures DerivativeScan(unit, ds, value, actual, wrongCase).Matched? <==> exists d | d in ds :: Hit(unit, d, value, actual)
    ensures DerivativeScan(unit, ds, value, actual, wrongCase).Matched? ==> DerivativeScan(unit, ds, value, actual, wrongCase).unit == unit
    decreases |ds|
  {
    if ds != [] {
      DerivativeScanMatched(unit, ds[1..], value, actual, wrongCase || LowerEq(actual, ds[0]));
      assert forall d | d in ds :: d == ds[0] || d in ds[1..];
    }
  }

  /** A symbol written in another case decides the unit as wrong-case only when no form hits. */
  lemma {:induction false} DerivativeScanWrongCase(unit: Unit, ds: seq<string>, value: string, actual: string, wrongCase: bool)
    ensures DerivativeScan(unit, ds, value, actual, wrongCase).WrongCase? <==>
      (forall d | d in ds :: !Hit(unit, d, value, actual)) && (wrongCase || exists d | d in ds :: LowerEq(actual, d))
    ensures DerivativeScan(unit, ds, value, actual, wrongCase).WrongCase? ==>
      DerivativeScan(unit, ds, value, actual, wrongCase).stripped == ParentTag(value, ' ')
    decreases |ds|
  {
    if ds != [] {
      DerivativeScanWrongCase(unit, ds[1..], value, actual, wrongCase || LowerEq(actual, ds[0]));
      assert forall d | d in ds :: d == ds[0] || d in ds[1..];
    }
  }

  /** The search settles on its first deciding outcome; every outcome before it decides nothing. */
  lemma {:induction false} FirstDecidedAt(outcomes: seq<UnitMatch>) returns (i: nat)
    requires !FirstDecided(outcomes).NoMatch?
    ensures i < |outcomes| && FirstDecided(outcomes) == outcomes[i]
    ensures forall j | 0 <= j < i :: outcomes[j].NoMatch?
  {
    if outcomes[0].NoMatch? {
      var k := FirstDecidedAt(outcomes[1..]);
      i := k + 1;
      assert forall j | 0 < j <= k :: outcomes[1..][j - 1] == outcomes[j];
    } else {
      i := 0;
    }
  }

  /** The search finds nothing exactly when no outcome decides anything. */
  lemma {:induction false} FirstDecidedNone(outcomes: seq<UnitMatch>)
    ensures FirstDecided(outcomes).NoMatch? <==> forall o | o in outcomes :: o.NoMatch?
  {
    if outcomes != [] {
      FirstDecidedNone(outcomes[1..]);
      assert forall o | o in outcomes :: o == outcomes[0] || o in outcomes[1..];
    }
  }

  /**
   * Longest first: the unit `validateUnits` settles on, by a match or a
   * wrong-case symbol, is a unit of the schema, and no unit with a longer
   * name decides anything.
   */
  lemma ValidateUnitsLongestFirst(t: ParsedHedTag) returns (e: UnitEntry)
    requires !UnitSearch(t).NoMatch?
    ensures e in t.schema.allUnits
    ensures UnitSearch(t) == UnitOutcome(e.1, UnitValue(t), ActualUnit(UnitValue(t)))
    ensures forall other | other in t.schema.allUnits && |other.0| > |e.0| ::
      UnitOutcome(other.1, UnitValue(t), ActualUnit(UnitValue(t))).NoMatch?
  {
    var sorted := SortByLength(t.schema.allUnits);
    SortPermutes(t.schema.allUnits);
    SortOrders(t.schema.allUnits);
    var outcomes := Outcomes(sorted, UnitValue(t), ActualUnit(UnitValue(t)));
    var i := FirstDecidedAt(outcomes);
    e := sorted[i];
    assert e in multiset(sorted);
    forall other | other in t.schema.allUnits && |other.0| > |e.0|
      ensures UnitOutcome(other.1, UnitValue(t), ActualUnit(UnitValue(t))).NoMatch?
    {
      assert other in multiset(t.schema.allUnits);
      assert other in sorted;
      var j :| 0 <= j < |sorted| && sorted[j] == other;
      LongerIsEarlier(sorted, i, j);
      assert outcomes[j] == UnitOutcome(other.1, UnitValue(t), ActualUnit(UnitValue(t)));
    }
  }

  /**
   * The three outcomes of `validateUnits`: a match reports whether its unit
   * is valid for the tag; a wrong-case symbol reports found but not valid,
   * with the unit word stripped; and when no unit decides, the value comes
   * back unchanged, found exactly when it has a space.
   */
  lemma UnitValidationCases(t: ParsedHedTag, validUnits: set<Unit>)
    ensures UnitValidation(t, validUnits).1 ==> UnitValidation(t, validUnits).0 && UnitSearch(t).Matched? && UnitSearch(t).unit in validUnits
    ensures UnitSearch(t).WrongCase? ==> UnitValidation(t, validUnits) == (true, false, ParentTag(UnitValue(t), ' '))
    ensures UnitSearch(t).NoMatch? ==> UnitValidation(t, validUnits) == (' ' in UnitValue(t), false, UnitValue(t))
    ensures !UnitValidation(t, validUnits).0 ==> ' ' !in UnitValue(t) && UnitValidation(t, validUnits).2 == UnitValue(t)
  {
    if UnitSearch(t).WrongCase? {
      var sorted := SortByLength(t.schema.allUnits);
      var i := FirstDecidedAt(Outcomes(sorted, UnitValue(t), ActualUnit(UnitValue(t))));
      var unit := sorted[i].1;
      DerivativeScanWrongCase(unit, unit.derivativeUnits, UnitValue(t), ActualUnit(UnitValue(t)), false);
    }
  }
}
