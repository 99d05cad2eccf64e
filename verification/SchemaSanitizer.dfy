/** Taking lookaround patterns out of a tool's JSON Schema, at schema positions only (src/tool-output-limit.ts). */
module SchemaSanitizer {
  import opened Collections
  import opened JsonTree
  import opened RegexScan

  /** The property names the sanitizer knows. */
  datatype Keyword =
    | Pattern | PatternProperties
    | Properties | Defs | Definitions | DependentSchemas
    | AllOf | AnyOf | OneOf | PrefixItems
    | AdditionalProperties | AdditionalItems | Contains | ContentSchema | Else | If | Items | Not | PropertyNames | Then
    | UnevaluatedItems | UnevaluatedProperties
    | Dependencies

  /** A property name: one of the above, or any other text.  No keyword contains a parenthesis. */
  datatype Name = Known(word: Keyword) | Other(text: string)

  type Schema = Json<Name>

  type SchemaFields = Fields<Name>

  /** What a keyword's value holds. */
  datatype Role = RegexText | RegexMap | SchemaMap | SchemaList | ListOrSchema | OneSchema | Data

  function RoleOf(name: Name): Role {
    if name.Other? then Data
    else match name.word
      case Pattern => RegexText
      case PatternProperties => RegexMap
      case Properties | Defs | Definitions | DependentSchemas => SchemaMap
      case AllOf | AnyOf | OneOf | PrefixItems => SchemaList
      case Items => ListOrSchema
      case Dependencies => SchemaMap
      case _ => OneSchema
  }

  predicate LookaroundName(name: Name) { name.Other? && Outside(name.text) }

  /** A `pattern` field that would have to go. */
  predicate BadPattern(name: Name, v: Schema) { RoleOf(name).RegexText? && v.Str? && Outside(v.text) }

  // ---------------------------------------------------------------- the sanitizer

  function SanitizeValue(v: Schema): Schema
    decreases v, 1
  {
    if v.Obj? then Obj(SanitizeFields(v.fields)) else CopyJsonValue(v)
  }

  function SanitizeFields(fields: SchemaFields): SchemaFields
    decreases fields, 0
  {
    match fields
    case End => End
    case More(name, v, rest) =>
      if BadPattern(name, v) then SanitizeFields(rest) else More(name, SanitizeUnder(RoleOf(name), v), SanitizeFields(rest))
  }

  function SanitizeUnder(role: Role, v: Schema): Schema
    decreases v, 2
  {
    match role
    case RegexMap => if v.Obj? then Obj(SanitizeEntries(v.fields, true)) else CopyJsonValue(v)
    case SchemaMap => if v.Obj? then Obj(SanitizeEntries(v.fields, false)) else CopyJsonValue(v)
    case SchemaList => if v.Arr? then Arr(SanitizeItems(v.items)) else CopyJsonValue(v)
    case ListOrSchema => if v.Arr? then Arr(SanitizeItems(v.items)) else SanitizeValue(v)
    case OneSchema => SanitizeValue(v)
    case _ => CopyJsonValue(v)
  }

  function SanitizeItems(items: seq<Schema>): seq<Schema>
    decreases items, 0
  {
    if items == [] then [] else [SanitizeValue(items[0])] + SanitizeItems(items[1..])
  }

  /** A map of schemas; one keyed by patterns loses the keys with lookaround. */
  function SanitizeEntries(fields: SchemaFields, patterns: bool): SchemaFields
    decreases fields, 0
  {
    match fields
    case End => End
    case More(name, v, rest) =>
      if patterns && LookaroundName(name) then SanitizeEntries(rest, patterns)
      else More(name, SanitizeValue(v), SanitizeEntries(rest, patterns))
  }

  /** The record is filled field by field. */
  method SanitizeSchemaObject(schema: SchemaFields) returns (sanitized: SchemaFields)
    ensures sanitized == SanitizeFields(schema)
  {
    sanitized := End;
    var left := schema;
    while left.More?
      invariant SanitizeFields(schema) == Append(sanitized, SanitizeFields(left))
      decreases left
    {
      var name, v := left.name, left.value;
      left := left.rest;
      if name == Known(Pattern) && v.Str? {
        var bad := HasUnsupportedRegexLookaround(v.text);
        if bad { continue; }
      }
      AppendMoves(sanitized, name, SanitizeUnder(RoleOf(name), v), SanitizeFields(left));
      sanitized := Append(sanitized, More(name, SanitizeUnder(RoleOf(name), v), End));
    }
    AppendEnd(sanitized);
  }

  // ---------------------------------------------------------------- schema positions, keyword by keyword

  /** The keywords whose value is an object of schemas (JSON Schema 2020-12 and its predecessors). */
  predicate HoldsMap(name: Name) {
    name.Known? && name.word in {Properties, PatternProperties, Defs, Definitions, DependentSchemas, Dependencies}
  }

  /** The keywords whose value is a list of schemas; `items` may hold a list or one schema. */
  predicate HoldsList(name: Name) { name.Known? && name.word in {AllOf, AnyOf, OneOf, PrefixItems} }

  predicate HoldsOne(name: Name) {
    && name.Known?
    && name.word in {AdditionalProperties, AdditionalItems, Contains, ContentSchema, Else, If, Items, Not, PropertyNames, Then,
                     UnevaluatedItems, UnevaluatedProperties}
  }

  /** The values right below a schema that are schemas themselves. */
  function Subschemas(v: Schema): seq<Schema> { if v.Obj? then SubschemasOf(v.fields) else [] }

  function SubschemasOf(fields: SchemaFields): seq<Schema> {
    if fields.End? then [] else SubschemasUnder(fields.name, fields.value) + SubschemasOf(fields.rest)
  }

  function SubschemasUnder(name: Name, v: Schema): seq<Schema> {
    if HoldsMap(name) then (if v.Obj? then Values(v.fields) else [])
    else if HoldsList(name) then (if v.Arr? then v.items else [])
    else if name == Known(Items) && v.Arr? then v.items
    else if HoldsOne(name) then [v]
    else []
  }

  function Values(fields: SchemaFields): seq<Schema> { if fields.End? then [] else [fields.value] + Values(fields.rest) }

  /** `route` leads from a schema to one nested in it, one subschema at a time. */
  ghost predicate Leads(v: Schema, route: seq<nat>, target: Schema)
    decreases |route|
  {
    if route == [] then v == target
    else route[0] < |Subschemas(v)| && Leads(Subschemas(v)[route[0]], route[1..], target)
  }

  /** A schema that itself has a lookaround in `pattern` or as a key of `patternProperties`. */
  ghost predicate Offends(v: Schema) { v.Obj? && OffendingFields(v.fields) }

  ghost predicate OffendingFields(fields: SchemaFields) {
    fields.More? && (Offending(fields.name, fields.value) || OffendingFields(fields.rest))
  }

  ghost predicate Offending(name: Name, v: Schema) {
    OffendingPattern(name, v) || (name == Known(PatternProperties) && v.Obj? && OffendingKey(v.fields))
  }

  ghost predicate OffendingPattern(name: Name, v: Schema) { name == Known(Pattern) && v.Str? && HasLookaround(v.text) }

  ghost predicate OffendingKey(fields: SchemaFields) {
    fields.More? && ((fields.name.Other? && HasLookaround(fields.name.text)) || OffendingKey(fields.rest))
  }

  /** The sanitizer's own tests are those of the reference. */
  lemma TestsAgree(name: Name, v: Schema)
    ensures BadPattern(name, v) <==> OffendingPattern(name, v)
    ensures LookaroundName(name) <==> name.Other? && HasLookaround(name.text)
  {
    if v.Str? { ScanFindsLookaround(v.text); }
    if name.Other? { ScanFindsLookaround(name.text); }
  }

  // ---------------------------------------------------------------- cleanness

  /** No lookaround at any schema position. */
  ghost predicate Clean(v: Schema)
    decreases v, 1
  {
    v.Obj? ==> CleanFields(v.fields)
  }

  ghost predicate CleanFields(fields: SchemaFields)
    decreases fields, 0
  {
    match fields
    case End => true
    case More(name, v, rest) => !Offending(name, v) && CleanUnder(name, v) && CleanFields(rest)
  }

  ghost predicate CleanUnder(name: Name, v: Schema)
    decreases v, 2
  {
    if HoldsMap(name) then (v.Obj? ==> CleanEntries(v.fields))
    else if HoldsList(name) then (v.Arr? ==> CleanItems(v.items))
    else if name == Known(Items) && v.Arr? then CleanItems(v.items)
    else HoldsOne(name) ==> Clean(v)
  }

  ghost predicate CleanItems(items: seq<Schema>)
    decreases items, 0
  {
    items != [] ==> Clean(items[0]) && CleanItems(items[1..])
  }

  ghost predicate CleanEntries(fields: SchemaFields)
    decreases fields, 0
  {
    match fields
    case End => true
    case More(_, v, rest) => Clean(v) && CleanEntries(rest)
  }

  // ---------------------------------------------------------------- sanitized is clean

  lemma {:induction false} SanitizedIsClean(v: Schema)
    ensures Clean(SanitizeValue(v))
    decreases v, 1
  {
    if v.Obj? { SanitizedFieldsClean(v.fields); } else { CopyIsSame(v); }
  }

  lemma {:induction false} SanitizedFieldsClean(fields: SchemaFields)
    ensures CleanFields(SanitizeFields(fields))
    decreases fields, 0
  {
    match fields
    case End =>
    case More(name, v, rest) =>
      SanitizedFieldsClean(rest);
      TestsAgree(name, v);
      if !BadPattern(name, v) { SanitizedUnderClean(name, v); }
  }

  lemma {:induction false} SanitizedUnderClean(name: Name, v: Schema)
    requires !BadPattern(name, v)
    ensures !Offending(name, SanitizeUnder(RoleOf(name), v)) && CleanUnder(name, SanitizeUnder(RoleOf(name), v))
    decreases v, 2
  {
    CopyIsSame(v);
    TestsAgree(name, v);
    match RoleOf(name)
    case RegexMap => if v.Obj? { SanitizedEntriesClean(v.fields, true); }
    case SchemaMap => if v.Obj? { SanitizedEntriesClean(v.fields, false); }
    case SchemaList => if v.Arr? { SanitizedItemsClean(v.items); }
    case ListOrSchema => if v.Arr? { SanitizedItemsClean(v.items); } else { SanitizedIsClean(v); }
    case OneSchema => SanitizedIsClean(v);
    case _ =>
  }

  lemma {:induction false} SanitizedItemsClean(items: seq<Schema>)
    ensures CleanItems(SanitizeItems(items))
    decreases items, 0
  {
    if items != [] {
      SanitizedIsClean(items[0]);
      SanitizedItemsClean(items[1..]);
      assert SanitizeItems(items)[1..] == SanitizeItems(items[1..]);
    }
  }

  lemma {:induction false} SanitizedEntriesClean(fields: SchemaFields, patterns: bool)
    ensures CleanEntries(SanitizeEntries(fields, patterns))
    ensures patterns ==> !OffendingKey(SanitizeEntries(fields, patterns))
    decreases fields, 0
  {
    match fields
    case End =>
    case More(name, v, rest) =>
      TestsAgree(name, v);
      SanitizedIsClean(v);
      SanitizedEntriesClean(rest, patterns);
  }

  // ---------------------------------------------------------------- clean is left alone

  lemma {:induction false} CleanStays(v: Schema)
    requires Clean(v)
    ensures SanitizeValue(v) == v
    decreases v, 1
  {
    if v.Obj? { CleanFieldsStay(v.fields); } else { CopyIsSame(v); }
  }

  lemma {:induction false} CleanFieldsStay(fields: SchemaFields)
    requires CleanFields(fields)
    ensures SanitizeFields(fields) == fields
    decreases fields, 0
  {
    match fields
    case End =>
    case More(name, v, rest) =>
      TestsAgree(name, v);
      CleanUnderStays(name, v);
      CleanFieldsStay(rest);
  }

  lemma {:induction false} CleanUnderStays(name: Name, v: Schema)
    requires !Offending(name, v) && CleanUnder(name, v)
    ensures SanitizeUnder(RoleOf(name), v) == v
    decreases v, 2
  {
    CopyIsSame(v);
    match RoleOf(name)
    case RegexMap => if v.Obj? { CleanEntriesStay(v.fields, true); }
    case SchemaMap => if v.Obj? { CleanEntriesStay(v.fields, false); }
    case SchemaList => if v.Arr? { CleanItemsStay(v.items); }
    case ListOrSchema => if v.Arr? { CleanItemsStay(v.items); } else { CleanStays(v); }
    case OneSchema => CleanStays(v);
    case _ =>
  }

  lemma {:induction false} CleanItemsStay(items: seq<Schema>)
    requires CleanItems(items)
    ensures SanitizeItems(items) == items
    decreases items, 0
  {
    if items != [] {
      CleanStays(items[0]);
      CleanItemsStay(items[1..]);
    }
  }

  lemma {:induction false} CleanEntriesStay(fields: SchemaFields, patterns: bool)
    requires CleanEntries(fields) && (patterns ==> !OffendingKey(fields))
    ensures SanitizeEntries(fields, patterns) == fields
    decreases fields, 0
  {
    match fields
    case End =>
    case More(name, v, rest) =>
      TestsAgree(name, v);
      CleanStays(v);
      CleanEntriesStay(rest, patterns);
  }

  /** Sanitizing twice is sanitizing once. */
  lemma SanitizeIsIdempotent(v: Schema)
    ensures SanitizeValue(SanitizeValue(v)) == SanitizeValue(v)
  {
    SanitizedIsClean(v);
    CleanStays(SanitizeValue(v));
  }

  // ---------------------------------------------------------------- against the reference positions

  ghost predicate AllClean(vs: seq<Schema>) { forall i :: 0 <= i < |vs| ==> Clean(vs[i]) }

  lemma AllCleanAppends(a: seq<Schema>, b: seq<Schema>)
    ensures AllClean(a + b) <==> AllClean(a) && AllClean(b)
  {
    if AllClean(a + b) {
      forall i | 0 <= i < |a| ensures Clean(a[i]) { assert (a + b)[i] == a[i]; }
      forall i | 0 <= i < |b| ensures Clean(b[i]) { assert (a + b)[|a| + i] == b[i]; }
    }
  }

  lemma AllCleanOne(v: Schema)
    ensures AllClean([v]) <==> Clean(v)
  {
    assert [v][0] == v;
  }

  lemma {:induction false} CleanValues(fields: SchemaFields)
    ensures CleanEntries(fields) <==> AllClean(Values(fields))
  {
    if fields.More? {
      CleanValues(fields.rest);
      AllCleanOne(fields.value);
      AllCleanAppends([fields.value], Values(fields.rest));
    }
  }

  lemma {:induction false} CleanMembers(items: seq<Schema>)
    ensures CleanItems(items) <==> AllClean(items)
  {
    if items != [] {
      CleanMembers(items[1..]);
      AllCleanOne(items[0]);
      AllCleanAppends([items[0]], items[1..]);
      assert [items[0]] + items[1..] == items;
    }
  }

  lemma UnderMembers(name: Name, v: Schema)
    ensures CleanUnder(name, v) <==> AllClean(SubschemasUnder(name, v))
  {
    AllCleanOne(v);
    if v.Obj? { CleanValues(v.fields); }
    if v.Arr? { CleanMembers(v.items); }
  }

  /** A schema is clean exactly if it does not offend itself and its subschemas are clean. */
  lemma {:induction false} CleanLocally(fields: SchemaFields)
    ensures CleanFields(fields) <==> !OffendingFields(fields) && AllClean(SubschemasOf(fields))
  {
    if fields.More? {
      CleanLocally(fields.rest);
      UnderMembers(fields.name, fields.value);
      AllCleanAppends(SubschemasUnder(fields.name, fields.value), SubschemasOf(fields.rest));
    }
  }

  lemma {:induction false} CleanWithin(v: Schema, route: seq<nat>, target: Schema)
    requires Clean(v) && Leads(v, route, target)
    ensures !Offends(target)
    decreases |route|
  {
    if v.Obj? { CleanLocally(v.fields); }
    if route != [] { CleanWithin(Subschemas(v)[route[0]], route[1..], target); }
  }

  /** Sanitizing leaves no lookaround, neither in a `pattern` nor as a `patternProperties` key, in any schema nested anywhere. */
  lemma NoLookaroundLeft(v: Schema, route: seq<nat>, target: Schema)
    requires Leads(SanitizeValue(v), route, target)
    ensures !Offends(target)
  {
    SanitizedIsClean(v);
    CleanWithin(SanitizeValue(v), route, target);
  }

  // ---------------------------------------------------------------- nothing else changes

  lemma {:induction false} ValuesAreSmaller(fields: SchemaFields, i: nat)
    requires i < |Values(fields)|
    ensures fields decreases to Values(fields)[i]
  {
    if i > 0 { ValuesAreSmaller(fields.rest, i - 1); }
  }

  lemma {:induction false} SubschemasAreSmaller(fields: SchemaFields, i: nat)
    requires i < |SubschemasOf(fields)|
    ensures fields decreases to SubschemasOf(fields)[i]
  {
    var v := fields.value;
    var head := SubschemasUnder(fields.name, v);
    if i < |head| {
      assert fields decreases to v;
      if v.Obj? && head != [v] { ValuesAreSmaller(v.fields, i); }
      if v.Arr? && head != [v] { assert v decreases to v.items[i]; }
      assert SubschemasOf(fields)[i] == head[i];
    } else {
      SubschemasAreSmaller(fields.rest, i - |head|);
    }
  }

  /** A schema that is not clean has an offender nested in it, or is one. */
  lemma {:induction false} FindOffender(v: Schema) returns (route: seq<nat>, target: Schema)
    requires !Clean(v)
    ensures Leads(v, route, target) && Offends(target)
    decreases v
  {
    CleanLocally(v.fields);
    if Offends(v) { return [], v; }
    var i: nat :| i < |SubschemasOf(v.fields)| && !Clean(SubschemasOf(v.fields)[i]);
    SubschemasAreSmaller(v.fields, i);
    route, target := FindOffender(SubschemasOf(v.fields)[i]);
    assert ([i] + route)[1..] == route;
    route := [i] + route;
  }

  ghost predicate OffenderAlong(v: Schema, route: seq<nat>, target: Schema) { Leads(v, route, target) && Offends(target) }

  /** Sanitizing changes a schema exactly if some schema nested in it, or itself, has a lookaround. */
  lemma ChangedExactly(v: Schema)
    ensures SanitizeValue(v) != v <==> exists route: seq<nat>, target :: OffenderAlong(v, route, target)
  {
    if SanitizeValue(v) == v {
      forall route: seq<nat>, target ensures !OffenderAlong(v, route, target) {
        if Leads(v, route, target) { NoLookaroundLeft(v, route, target); }
      }
    } else {
      if Clean(v) { CleanStays(v); }
      var route, target := FindOffender(v);
      assert OffenderAlong(v, route, target);
    }
  }

  /** What stands here is no schema and holds none: any other key, a `pattern` that stays, or a value of the wrong shape. */
  ghost predicate Carried(name: Name, v: Schema) {
    || name.Other? || (name == Known(Pattern) && !OffendingPattern(name, v))
    || (HoldsMap(name) && !v.Obj?) || (HoldsList(name) && !v.Arr?)
  }

  ghost function DataFields(fields: SchemaFields): SchemaFields {
    match fields
    case End => End
    case More(name, v, rest) => if Carried(name, v) then More(name, v, DataFields(rest)) else DataFields(rest)
  }

  /** Within one schema, whatever is no schema is carried over untouched, in the same order. */
  lemma {:induction false} DataUntouched(fields: SchemaFields)
    ensures DataFields(SanitizeFields(fields)) == DataFields(fields)
  {
    match fields
    case End =>
    case More(name, v, rest) =>
      DataUntouched(rest);
      CopyIsSame(v);
      TestsAgree(name, v);
  }

  function NamesOf(fields: SchemaFields): seq<Name> { if fields.End? then [] else [fields.name] + NamesOf(fields.rest) }

  ghost function KeptNames(fields: SchemaFields): seq<Name> {
    if fields.End? then []
    else (if OffendingPattern(fields.name, fields.value) then [] else [fields.name]) + KeptNames(fields.rest)
  }

  /** Of a schema's own fields only a `pattern` with lookaround disappears. */
  lemma {:induction false} OnlyPatternsGo(fields: SchemaFields)
    ensures NamesOf(SanitizeFields(fields)) == KeptNames(fields)
  {
    if fields.More? {
      OnlyPatternsGo(fields.rest);
      TestsAgree(fields.name, fields.value);
    }
  }

  // ---------------------------------------------------------------- every schema but those under lookaround keys survives

  /** The schemas of a map that keep their key. */
  ghost function KeptValues(fields: SchemaFields, patterns: bool): seq<Schema> {
    if fields.End? then []
    else (if patterns && fields.name.Other? && HasLookaround(fields.name.text) then [] else [fields.value]) + KeptValues(fields.rest, patterns)
  }

  ghost function KeptUnder(name: Name, v: Schema): seq<Schema> {
    if name == Known(PatternProperties) && v.Obj? then KeptValues(v.fields, true) else SubschemasUnder(name, v)
  }

  ghost function KeptSubschemasOf(fields: SchemaFields): seq<Schema> {
    if fields.End? then [] else KeptUnder(fields.name, fields.value) + KeptSubschemasOf(fields.rest)
  }

  /** The subschemas of a schema but those under a `patternProperties` key with lookaround. */
  ghost function KeptSubschemas(v: Schema): seq<Schema> { if v.Obj? then KeptSubschemasOf(v.fields) else [] }

  ghost predicate LeadsKept(v: Schema, route: seq<nat>, target: Schema)
    decreases |route|
  {
    if route == [] then v == target
    else route[0] < |KeptSubschemas(v)| && LeadsKept(KeptSubschemas(v)[route[0]], route[1..], target)
  }

  lemma {:induction false} SanitizeItemsAt(vs: seq<Schema>, i: nat)
    ensures |SanitizeItems(vs)| == |vs| && (i < |vs| ==> SanitizeItems(vs)[i] == SanitizeValue(vs[i]))
  {
    if vs != [] { SanitizeItemsAt(vs[1..], if i > 0 then i - 1 else 0); }
  }

  lemma {:induction false} SanitizeItemsAppends(a: seq<Schema>, b: seq<Schema>)
    ensures SanitizeItems(a + b) == SanitizeItems(a) + SanitizeItems(b)
  {
    if a == [] {
      assert a + b == b;
    } else {
      SanitizeItemsAppends(a[1..], b);
      assert (a + b)[1..] == a[1..] + b && (a + b)[0] == a[0];
      Regroup([SanitizeValue(a[0])], SanitizeItems(a[1..]), SanitizeItems(b));
    }
  }

  lemma {:induction false} EntriesSanitized(fields: SchemaFields, patterns: bool)
    ensures Values(SanitizeEntries(fields, patterns)) == SanitizeItems(KeptValues(fields, patterns))
    ensures !patterns ==> KeptValues(fields, patterns) == Values(fields)
    decreases fields
  {
    if fields.More? {
      EntriesSanitized(fields.rest, patterns);
      TestsAgree(fields.name, fields.value);
      var kept := if patterns && LookaroundName(fields.name) then [] else [fields.value];
      SanitizeItemsAppends(kept, KeptValues(fields.rest, patterns));
    }
  }

  /** The sanitizer treats each keyword as the kind of schema position it is. */
  lemma RolesAgree(name: Name)
    ensures RoleOf(name).Data? <==> name.Other?
    ensures RoleOf(name).RegexText? <==> name == Known(Pattern)
    ensures RoleOf(name).RegexMap? <==> name == Known(PatternProperties)
    ensures RoleOf(name).SchemaMap? <==> HoldsMap(name) && name != Known(PatternProperties)
    ensures RoleOf(name).SchemaList? <==> HoldsList(name)
    ensures RoleOf(name).ListOrSchema? <==> name == Known(Items)
    ensures RoleOf(name).OneSchema? <==> HoldsOne(name) && name != Known(Items)
  {
  }

  lemma MapSanitized(v: Schema, patterns: bool)
    requires v.Obj?
    ensures Values(SanitizeUnder(if patterns then RegexMap else SchemaMap, v).fields) == SanitizeItems(KeptValues(v.fields, patterns))
    ensures KeptValues(v.fields, false) == Values(v.fields)
  {
    EntriesSanitized(v.fields, patterns);
    EntriesSanitized(v.fields, false);
  }

  lemma OneSanitized(v: Schema)
    ensures SanitizeItems([v]) == [SanitizeValue(v)] && SanitizeItems([]) == []
    ensures SanitizeValue(v).Arr? <==> v.Arr?
  {
    CopyIsSame(v);
    assert [v][1..] == [];
  }

  lemma UnderSanitized(name: Name, v: Schema)
    requires !BadPattern(name, v)
    ensures SubschemasUnder(name, SanitizeUnder(RoleOf(name), v)) == SanitizeItems(KeptUnder(name, v))
  {
    RolesAgree(name);
    CopyIsSame(v);
    OneSanitized(v);
    match RoleOf(name)
    case RegexMap => if v.Obj? { MapSanitized(v, true); }
    case SchemaMap => if v.Obj? { MapSanitized(v, false); }
    case _ =>
  }

  lemma {:induction false} FieldsSanitized(fields: SchemaFields)
    ensures SubschemasOf(SanitizeFields(fields)) == SanitizeItems(KeptSubschemasOf(fields))
    decreases fields
  {
    if fields.More? {
      var name, v := fields.name, fields.value;
      FieldsSanitized(fields.rest);
      if !BadPattern(name, v) { UnderSanitized(name, v); }
      SanitizeItemsAppends(KeptUnder(name, v), KeptSubschemasOf(fields.rest));
    }
  }

  /** The subschemas of a sanitized schema are its kept subschemas, sanitized, in the same order. */
  lemma SubschemasSanitized(v: Schema)
    ensures Subschemas(SanitizeValue(v)) == SanitizeItems(KeptSubschemas(v))
  {
    if v.Obj? { FieldsSanitized(v.fields); } else { CopyIsSame(v); }
  }

  ghost predicate ComesFrom(v: Schema, route: seq<nat>, source: Schema, target: Schema) {
    LeadsKept(v, route, source) && target == SanitizeValue(source)
  }

  lemma {:induction false} KeptIsThere(v: Schema, route: seq<nat>, source: Schema)
    requires LeadsKept(v, route, source)
    ensures Leads(SanitizeValue(v), route, SanitizeValue(source))
    decreases |route|
  {
    if route != [] {
      SubschemasSanitized(v);
      SanitizeItemsAt(KeptSubschemas(v), route[0]);
      KeptIsThere(KeptSubschemas(v)[route[0]], route[1..], source);
    }
  }

  lemma {:induction false} ThereIsKept(v: Schema, route: seq<nat>, target: Schema) returns (source: Schema)
    requires Leads(SanitizeValue(v), route, target)
    ensures ComesFrom(v, route, source, target)
    decreases |route|
  {
    if route == [] { return v; }
    SubschemasSanitized(v);
    SanitizeItemsAt(KeptSubschemas(v), route[0]);
    source := ThereIsKept(KeptSubschemas(v)[route[0]], route[1..], target);
  }

  /**
   The schemas nested anywhere in a sanitized schema are, route by route, the sanitized forms of those
   nested in the original, none lost and none added but for those under a `patternProperties` key with lookaround.
   */
  lemma SchemasSurvive(v: Schema, route: seq<nat>, target: Schema)
    ensures Leads(SanitizeValue(v), route, target) <==> exists source :: ComesFrom(v, route, source, target)
  {
    if Leads(SanitizeValue(v), route, target) { var source := ThereIsKept(v, route, target); }
    if source :| ComesFrom(v, route, source, target) { KeptIsThere(v, route, source); }
  }

  /** The keys of the maps of schemas among the fields, one list for each field. */
  function MapKeys(fields: SchemaFields): seq<seq<Name>> {
    if fields.End? then [] else [KeysUnder(fields.name, fields.value)] + MapKeys(fields.rest)
  }

  function KeysUnder(name: Name, v: Schema): seq<Name> { if HoldsMap(name) && v.Obj? then NamesOf(v.fields) else [] }

  ghost function KeptMapKeys(fields: SchemaFields): seq<seq<Name>> {
    if fields.End? then []
    else if OffendingPattern(fields.name, fields.value) then KeptMapKeys(fields.rest)
    else
      var name, v := fields.name, fields.value;
      [if name == Known(PatternProperties) && v.Obj? then KeptKeys(v.fields) else KeysUnder(name, v)] + KeptMapKeys(fields.rest)
  }

  ghost function KeptKeys(fields: SchemaFields): seq<Name> {
    if fields.End? then []
    else (if fields.name.Other? && HasLookaround(fields.name.text) then [] else [fields.name]) + KeptKeys(fields.rest)
  }

  lemma {:induction false} KeysSanitized(fields: SchemaFields, patterns: bool)
    ensures NamesOf(SanitizeEntries(fields, patterns)) == if patterns then KeptKeys(fields) else NamesOf(fields)
  {
    if fields.More? {
      KeysSanitized(fields.rest, patterns);
      TestsAgree(fields.name, fields.value);
    }
  }

  lemma KeysUnderSanitized(name: Name, v: Schema)
    requires !BadPattern(name, v)
    ensures KeysUnder(name, SanitizeUnder(RoleOf(name), v)) ==
            if name == Known(PatternProperties) && v.Obj? then KeptKeys(v.fields) else KeysUnder(name, v)
  {
    RolesAgree(name);
    CopyIsSame(v);
    if v.Obj? {
      KeysSanitized(v.fields, true);
      KeysSanitized(v.fields, false);
    }
  }

  lemma {:induction false} MapKeysSanitized(fields: SchemaFields)
    ensures MapKeys(SanitizeFields(fields)) == KeptMapKeys(fields)
  {
    if fields.More? {
      MapKeysSanitized(fields.rest);
      TestsAgree(fields.name, fields.value);
      if !BadPattern(fields.name, fields.value) { KeysUnderSanitized(fields.name, fields.value); }
    }
  }

  /** What sanitizing leaves of one schema: its data, its field names and the keys of its maps, but for lookarounds. */
  ghost predicate Intact(source: Schema, target: Schema) {
    if !source.Obj? then target == source
    else
      && target.Obj? && DataFields(target.fields) == DataFields(source.fields)
      && NamesOf(target.fields) == KeptNames(source.fields) && MapKeys(target.fields) == KeptMapKeys(source.fields)
  }

  /**
   At every schema nested anywhere, whatever is no schema is carried over untouched and in order, the property
   names of every map of schemas stay, and only a `pattern` or a `patternProperties` key with lookaround goes.
   */
  lemma NothingElseChanges(v: Schema, route: seq<nat>, source: Schema)
    requires LeadsKept(v, route, source)
    ensures Leads(SanitizeValue(v), route, SanitizeValue(source)) && Intact(source, SanitizeValue(source))
  {
    KeptIsThere(v, route, source);
    if source.Obj? {
      DataUntouched(source.fields);
      OnlyPatternsGo(source.fields);
      MapKeysSanitized(source.fields);
    } else {
      CopyIsSame(source);
    }
  }
}
