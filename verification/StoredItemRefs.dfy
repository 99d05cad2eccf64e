/** References to items stored by the model provider: finding them, and taking them out (src/delegate-serial.ts). */
module StoredItemRefs {
  import opened JsonTree

  datatype Name = ItemId | PreviousResponseId | Id | Type | Other(text: string)

  type Value = Json<Name>

  type Record = Fields<Name>

  const ITEM_REFERENCE := "item_reference"

  predicate AlphaNumeric(c: char) { '0' <= c <= '9' || 'A' <= c <= 'Z' || 'a' <= c <= 'z' }

  /** "rs_" and then letters and digits, at least one. */
  predicate IsStoredItemId(v: Value) {
    && v.Str? && |v.text| >= 4 && v.text[0] == 'r' && v.text[1] == 's' && v.text[2] == '_'
    && forall i :: 3 <= i < |v.text| ==> AlphaNumeric(v.text[i])
  }

  predicate IsReference(fields: Record) {
    fields.More? && ((fields.name.Type? && fields.value == Str(ITEM_REFERENCE)) || IsReference(fields.rest))
  }

  /** This field names a stored item; a plain `id` does so only in an item reference. */
  predicate Refers(name: Name, v: Value, reference: bool) {
    IsStoredItemId(v) && (name.ItemId? || name.PreviousResponseId? || (name.Id? && reference))
  }

  // ---------------------------------------------------------------- collecting

  /** The stored item ids named anywhere in a value. */
  function Ids(v: Value): set<string>
    decreases v, 1
  {
    match v
    case Arr(items) => IdsOfItems(items)
    case Obj(fields) => IdsOfFields(fields, IsReference(fields))
    case _ => {}
  }

  function IdsOfItems(items: seq<Value>): set<string>
    decreases items, 0
  {
    if items == [] then {} else Ids(items[0]) + IdsOfItems(items[1..])
  }

  function IdsOfFields(fields: Record, reference: bool): set<string>
    decreases fields, 0
  {
    match fields
    case End => {}
    case More(name, v, rest) => (if Refers(name, v, reference) then {v.text} else {}) + Ids(v) + IdsOfFields(rest, reference)
  }

  /** The walk that adds to one growing set. */
  method CollectOpenAiStoredItemIds(v: Value, found: set<string>) returns (all: set<string>)
    ensures all == found + Ids(v)
    decreases v
  {
    all := found;
    match v
    case Arr(items) =>
      for k := 0 to |items|
        invariant all + IdsOfItems(items[k..]) == found + IdsOfItems(items)
      {
        assert items[k..][1..] == items[k + 1..];
        all := CollectOpenAiStoredItemIds(items[k], all);
      }
    case Obj(fields) =>
      var reference := IsReference(fields);
      var left := fields;
      while left.More?
        invariant (v decreases to left)
        invariant all + IdsOfFields(left, reference) == found + IdsOfFields(fields, reference)
        decreases left
      {
        if Refers(left.name, left.value, reference) { all := all + {left.value.text}; }
        all := CollectOpenAiStoredItemIds(left.value, all);
        left := left.rest;
      }
    case _ =>
  }

  // ---------------------------------------------------------------- stripping

  function Strip(v: Value): Value
    decreases v, 1
  {
    match v
    case Arr(items) => Arr(StripItems(items))
    case Obj(fields) => Obj(StripFields(fields, IsReference(fields)))
    case _ => v
  }

  function StripItems(items: seq<Value>): seq<Value>
    decreases items, 0
  {
    if items == [] then [] else [Strip(items[0])] + StripItems(items[1..])
  }

  function StripFields(fields: Record, reference: bool): Record
    decreases fields, 0
  {
    match fields
    case End => End
    case More(name, v, rest) =>
      if Refers(name, v, reference) then StripFields(rest, reference)
      else More(name, Strip(v), StripFields(rest, reference))
  }

  lemma {:induction false} StillReference(fields: Record, reference: bool)
    ensures IsReference(StripFields(fields, reference)) == IsReference(fields)
  {
    if fields.More? { StillReference(fields.rest, reference); }
  }

  /** Nothing stored is named any more once a value has been stripped. */
  lemma {:induction false} StrippedNamesNone(v: Value)
    ensures Ids(Strip(v)) == {}
    decreases v, 1
  {
    match v
    case Arr(items) => StrippedItemsNameNone(items);
    case Obj(fields) =>
      StillReference(fields, IsReference(fields));
      StrippedFieldsNameNone(fields, IsReference(fields));
    case _ =>
  }

  lemma {:induction false} StrippedItemsNameNone(items: seq<Value>)
    ensures IdsOfItems(StripItems(items)) == {}
    decreases items, 0
  {
    if items != [] {
      StrippedNamesNone(items[0]);
      StrippedItemsNameNone(items[1..]);
      assert StripItems(items)[1..] == StripItems(items[1..]);
    }
  }

  lemma {:induction false} StrippedFieldsNameNone(fields: Record, reference: bool)
    ensures IdsOfFields(StripFields(fields, reference), reference) == {}
    decreases fields, 0
  {
    match fields
    case End =>
    case More(name, v, rest) =>
      StrippedNamesNone(v);
      StrippedFieldsNameNone(rest, reference);
  }

  lemma {:induction false} UnnamedStays(v: Value)
    requires Ids(v) == {}
    ensures Strip(v) == v
    decreases v, 1
  {
    match v
    case Arr(items) => UnnamedItemsStay(items);
    case Obj(fields) => UnnamedFieldsStay(fields, IsReference(fields));
    case _ =>
  }

  lemma {:induction false} UnnamedItemsStay(items: seq<Value>)
    requires IdsOfItems(items) == {}
    ensures StripItems(items) == items
    decreases items, 0
  {
    if items != [] {
      UnnamedStays(items[0]);
      UnnamedItemsStay(items[1..]);
    }
  }

  lemma NamedIsCollected(fields: Record, reference: bool)
    requires fields.More?
    ensures Refers(fields.name, fields.value, reference) ==> IdsOfFields(fields, reference) != {}
  {
    if Refers(fields.name, fields.value, reference) { assert fields.value.text in IdsOfFields(fields, reference); }
  }

  lemma {:induction false} UnnamedFieldsStay(fields: Record, reference: bool)
    requires IdsOfFields(fields, reference) == {}
    ensures StripFields(fields, reference) == fields
    decreases fields, 0
  {
    match fields
    case End =>
    case More(name, v, rest) =>
      NamedIsCollected(fields, reference);
      UnnamedStays(v);
      UnnamedFieldsStay(rest, reference);
  }

  /** A value is left alone exactly if it names no stored item, and stripping again changes nothing. */
  lemma StripExactly(v: Value)
    ensures Strip(v) == v <==> Ids(v) == {}
    ensures Strip(Strip(v)) == Strip(v)
  {
    StrippedNamesNone(v);
    UnnamedStays(Strip(v));
    if Ids(v) == {} { UnnamedStays(v); }
  }

  // ---------------------------------------------------------------- what is named, and what is left

  ghost predicate Has(fields: Record, name: Name, v: Value) {
    fields.More? && ((fields.name == name && fields.value == v) || Has(fields.rest, name, v))
  }

  /** Spelled as code units: "rs_" and then digits and letters of either case. */
  ghost predicate StoredId(id: string) {
    && |id| > 3 && id[..3] == "rs_"
    && forall i :: 3 <= i < |id| ==>
         48 <= id[i] as int <= 57 || 65 <= id[i] as int <= 90 || 97 <= id[i] as int <= 122
  }

  /** A record names the ids of its `itemId` and `previousResponseId`, and its own `id` if it is an item reference. */
  ghost predicate RecordNames(fields: Record, name: Name, id: string) {
    && StoredId(id) && Has(fields, name, Str(id))
    && (name == ItemId || name == PreviousResponseId || (name == Id && Has(fields, Type, Str("item_reference"))))
  }

  /** Somewhere in a value there is a record that names the id. */
  ghost predicate Names(v: Value, id: string)
    decreases v, 1
  {
    match v
    case Arr(items) => exists k :: 0 <= k < |items| && Names(items[k], id)
    case Obj(fields) => (exists name :: RecordNames(fields, name, id)) || NamesBelow(fields, id)
    case _ => false
  }

  ghost predicate NamesBelow(fields: Record, id: string)
    decreases fields, 0
  {
    fields.More? && (Names(fields.value, id) || NamesBelow(fields.rest, id))
  }

  lemma StoredIdExactly(v: Value)
    ensures IsStoredItemId(v) <==> v.Str? && StoredId(v.text)
  {
  }

  lemma {:induction false} ReferenceExactly(fields: Record)
    ensures IsReference(fields) <==> Has(fields, Type, Str("item_reference"))
  {
    if fields.More? { ReferenceExactly(fields.rest); }
  }

  /** What the fields of one record add: the ids it names itself, and what is named below them. */
  lemma {:induction false} FieldsCollectExactly(fields: Record, reference: bool, id: string)
    ensures id in IdsOfFields(fields, reference) <==>
              || (StoredId(id) && (Has(fields, ItemId, Str(id)) || Has(fields, PreviousResponseId, Str(id)) ||
                                   (reference && Has(fields, Id, Str(id)))))
              || NamesBelow(fields, id)
    decreases fields, 0
  {
    if fields.More? {
      FieldsCollectExactly(fields.rest, reference, id);
      CollectedExactly(fields.value, id);
      StoredIdExactly(fields.value);
    }
  }

  lemma {:induction false} ItemsCollectExactly(items: seq<Value>, id: string)
    ensures id in IdsOfItems(items) <==> exists k :: 0 <= k < |items| && Names(items[k], id)
    decreases items, 0
  {
    if items != [] {
      CollectedExactly(items[0], id);
      ItemsCollectExactly(items[1..], id);
      assert forall k :: 1 <= k < |items| ==> items[k] == items[1..][k - 1];
    }
  }

  /** Collected are the ids that a record somewhere in the value names, and no others. */
  lemma {:induction false} CollectedExactly(v: Value, id: string)
    ensures id in Ids(v) <==> Names(v, id)
    decreases v, 1
  {
    match v
    case Arr(items) => ItemsCollectExactly(items, id);
    case Obj(fields) =>
      ReferenceExactly(fields);
      FieldsCollectExactly(fields, IsReference(fields), id);
      assert (exists name :: RecordNames(fields, name, id)) <==>
        RecordNames(fields, ItemId, id) || RecordNames(fields, PreviousResponseId, id) || RecordNames(fields, Id, id);
    case _ =>
  }

  /** One value is the other without the fields by which a record names an item; everything else is in its place. */
  ghost predicate StrippedOf(w: Value, v: Value)
    decreases v, 1
  {
    match v
    case Arr(items) => w.Arr? && |w.items| == |items| && forall k :: 0 <= k < |items| ==> StrippedOf(w.items[k], items[k])
    case Obj(fields) => w.Obj? && StrippedFieldsOf(w.fields, fields, fields)
    case _ => w == v
  }

  ghost predicate StrippedFieldsOf(left: Record, fields: Record, whole: Record)
    decreases fields, 0
  {
    match fields
    case End => left.End?
    case More(name, v, rest) =>
      if v.Str? && RecordNames(whole, name, v.text) then StrippedFieldsOf(left, rest, whole)
      else left.More? && left.name == name && StrippedOf(left.value, v) && StrippedFieldsOf(left.rest, rest, whole)
  }

  ghost predicate Within(fields: Record, whole: Record) { forall name, v :: Has(fields, name, v) ==> Has(whole, name, v) }

  lemma {:induction false} FieldsStripExactly(fields: Record, whole: Record)
    requires Within(fields, whole)
    ensures StrippedFieldsOf(StripFields(fields, IsReference(whole)), fields, whole)
    decreases fields, 0
  {
    if fields.More? {
      assert Has(whole, fields.name, fields.value) by { assert Has(fields, fields.name, fields.value); }
      assert Within(fields.rest, whole) by {
        forall name, v | Has(fields.rest, name, v) ensures Has(whole, name, v) { assert Has(fields, name, v); }
      }
      StripsExactly(fields.value);
      StoredIdExactly(fields.value);
      ReferenceExactly(whole);
      FieldsStripExactly(fields.rest, whole);
    }
  }

  lemma {:induction false} ItemsStripExactly(items: seq<Value>)
    ensures |StripItems(items)| == |items|
    ensures forall k :: 0 <= k < |items| ==> StrippedOf(StripItems(items)[k], items[k])
    decreases items, 0
  {
    if items != [] {
      StripsExactly(items[0]);
      ItemsStripExactly(items[1..]);
      assert forall k :: 1 <= k < |items| ==> items[k] == items[1..][k - 1] && StripItems(items)[k] == StripItems(items[1..])[k - 1];
    }
  }

  /** Stripping takes out the fields that name an item, at every depth, and nothing else. */
  lemma {:induction false} StripsExactly(v: Value)
    ensures StrippedOf(Strip(v), v)
    decreases v, 1
  {
    match v
    case Arr(items) => ItemsStripExactly(items);
    case Obj(fields) => FieldsStripExactly(fields, fields);
    case _ =>
  }
}
