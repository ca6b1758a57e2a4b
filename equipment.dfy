/** equipment.c: the gym's equipment, kept in a store of at most 100 items
    and saved to the equipment file one `id|name|description|quantity` line
    per item. */
module Equipment {
  import opened Format
  import Codec
  import opened RecordStore

  const MaxEquipment: nat := 100
  /** The name and description buffers hold 50 and 100 bytes with their
      terminator. */
  const NameWidth: nat := 49
  const DescriptionWidth: nat := 99

  /** One equipment record. */
  datatype Item = Item(id: int, name: string, description: string, quantity: int)

  function ItemId(e: Item): int { e.id }

  ghost predicate IsEquipmentStore(equipment: Store<Item>)
    reads equipment
  {
    equipment.Valid() && equipment.capacity == MaxEquipment && equipment.idOf == ItemId
  }

  /** create_equipment: copies the id and quantity, and keeps at most the
      first 49 characters of the name and 99 of the description. */
  function CreateItem(id: int, name: string, description: string, quantity: int): (e: Item)
    ensures e.id == id && e.quantity == quantity
    ensures e.name <= name && |e.name| == if |name| <= NameWidth then |name| else NameWidth
    ensures e.description <= description
    ensures |e.description| == if |description| <= DescriptionWidth then |description| else DescriptionWidth
  {
    Item(id, Truncate(name, NameWidth), Truncate(description, DescriptionWidth), quantity)
  }

  /** The field updates of modify_equipment: an empty name or description,
      or a quantity that is not positive, keeps the current value; a new
      name or description is cut to its buffer. The id never changes. */
  function EditItem(e: Item, name: string, quantity: int, description: string): (r: Item)
    ensures r.id == e.id
    ensures r.name == if |name| == 0 then e.name else CreateItem(e.id, name, description, quantity).name
    ensures r.quantity == if quantity > 0 then quantity else e.quantity
    ensures r.description == if |description| == 0 then e.description else CreateItem(e.id, name, description, quantity).description
  {
    e.(name := if |name| > 0 then Truncate(name, NameWidth) else e.name,
       quantity := if quantity > 0 then quantity else e.quantity,
       description := if |description| > 0 then Truncate(description, DescriptionWidth) else e.description)
  }

  /** Blank answers to every prompt leave the item as it was. */
  lemma BlankEditKeepsItem(e: Item, quantity: int)
    requires quantity <= 0
    ensures EditItem(e, "", quantity, "") == e
  {
  }

  /** Giving the same answers twice changes nothing the second time. */
  lemma EditItemIdempotent(e: Item, name: string, quantity: int, description: string)
    ensures EditItem(EditItem(e, name, quantity, description), name, quantity, description) == EditItem(e, name, quantity, description)
  {
  }

  // -------------------------------------------------------------- the file

  /** An item the line format can carry: a name of 1 to 49 characters and a
      description of 1 to 99 characters, neither containing '|'. */
  predicate WellFormedItem(e: Item) {
    && 0 < |e.name| <= NameWidth && '|' !in e.name
    && 0 < |e.description| <= DescriptionWidth && '|' !in e.description
  }

  /** fprintf(f, "%d|%s|%s|%d\n", ...) */
  function EncodeItem(e: Item): (line: string)
    ensures |line| > 0 && !IsSpace(line[0])
  {
    IntToString(e.id) + "|" + e.name + "|" + e.description + "|" + IntToString(e.quantity) + "\n"
  }

  /** fscanf(f, "%d|%49[^|]|%99[^|]|%d\n", ...), succeeding only when all
      four fields are read, one stage per field. */
  function ParseItem(s: string): Option<(Item, string)> {
    var idField :- ScanInt(s);
    ParseAfterId(idField.0, idField.1)
  }

  function ParseAfterId(id: int, s: string): Option<(Item, string)> {
    var r :- Expect(s, '|');
    var nameField :- ScanSet(r, '|', NameWidth);
    ParseAfterName(id, nameField.0, nameField.1)
  }

  function ParseAfterName(id: int, name: string, s: string): Option<(Item, string)> {
    var r :- Expect(s, '|');
    var descriptionField :- ScanSet(r, '|', DescriptionWidth);
    ParseAfterDescription(id, name, descriptionField.0, descriptionField.1)
  }

  function ParseAfterDescription(id: int, name: string, description: string, s: string): Option<(Item, string)> {
    var r :- Expect(s, '|');
    var quantityField :- ScanInt(r);
    Some((Item(id, name, description, quantityField.0), SkipSpace(quantityField.1)))
  }

  /** The line followed by t, as the sequence of pieces the directives read. */
  lemma ItemLineFields(e: Item, t: string)
    ensures EncodeItem(e) + t
         == IntToString(e.id) + ("|" + (e.name + ("|" + (e.description + ("|" + (IntToString(e.quantity) + ("\n" + t)))))))
  {
  }

  lemma {:induction false} ParseQuantity(e: Item, t: string)
    requires StartsClean(t)
    ensures ParseAfterDescription(e.id, e.name, e.description, "|" + (IntToString(e.quantity) + ("\n" + t))) == Some((e, t))
  {
    ExpectLiteral('|', IntToString(e.quantity) + ("\n" + t));
    ScanIntOfIntToString(e.quantity, "\n" + t);
    SkipLineEnd(t);
  }

  lemma {:induction false} ParseDescription(e: Item, t: string)
    requires WellFormedItem(e) && StartsClean(t)
    ensures ParseAfterName(e.id, e.name, "|" + (e.description + ("|" + (IntToString(e.quantity) + ("\n" + t))))) == Some((e, t))
  {
    var rest := IntToString(e.quantity) + ("\n" + t);
    assert e.description + ("|" + rest) == e.description + ['|'] + rest;
    ScanSetOfField(e.description, '|', DescriptionWidth, rest);
    ParseQuantity(e, t);
  }

  /** A name of 1 to 49 characters without '|' is read whole, and reading
      goes on after it. */
  lemma {:induction false} ParseName(id: int, name: string, rest: string)
    requires 0 < |name| <= NameWidth && '|' !in name
    ensures ParseAfterId(id, "|" + (name + ("|" + rest))) == ParseAfterName(id, name, "|" + rest)
  {
    assert name + ("|" + rest) == name + ['|'] + rest;
    ScanSetOfField(name, '|', NameWidth, rest);
  }

  lemma {:induction false} ParseFields(e: Item, t: string, afterId: string)
    requires WellFormedItem(e) && StartsClean(t)
    requires afterId == "|" + (e.name + ("|" + (e.description + ("|" + (IntToString(e.quantity) + ("\n" + t))))))
    ensures ParseItem(IntToString(e.id) + afterId) == Some((e, t))
  {
    ScanIntOfIntToString(e.id, afterId);
    ParseName(e.id, e.name, e.description + ("|" + (IntToString(e.quantity) + ("\n" + t))));
    ParseDescription(e, t);
  }

  /** A well-formed item's line reads back as that item, leaving the text
      after the line untouched. */
  lemma {:induction false} ParseEncodedItem(e: Item, t: string)
    requires WellFormedItem(e) && StartsClean(t)
    ensures ParseItem(EncodeItem(e) + t) == Some((e, t))
  {
    ItemLineFields(e, t);
    ParseFields(e, t, "|" + (e.name + ("|" + (e.description + ("|" + (IntToString(e.quantity) + ("\n" + t)))))));
  }

  lemma ItemLinesRoundTrip()
    ensures Codec.RoundTrips(ParseItem, EncodeItem, WellFormedItem)
  {
    forall e, t | WellFormedItem(e) && StartsClean(t)
      ensures ParseItem(EncodeItem(e) + t) == Some((e, t))
    {
      ParseEncodedItem(e, t);
    }
  }

  /** Whatever the item reader returns is a well-formed item: each `%N[^|]`
      directive reads 1 to N characters, none of them '|'. */
  lemma {:induction false} ParsedItemIsWellFormed(s: string)
    requires ParseItem(s).Some?
    ensures WellFormedItem(ParseItem(s).value.0)
  {
    var (id, r0) := ScanInt(s).value;
    var r1 := Expect(r0, '|').value;
    ScanSetIsField(r1, '|', NameWidth);
    var (name, r2) := ScanSet(r1, '|', NameWidth).value;
    var r3 := Expect(r2, '|').value;
    ScanSetIsField(r3, '|', DescriptionWidth);
  }

  lemma ItemReaderReadsWellFormed()
    ensures Codec.ReadsOnlyWellFormed(ParseItem, WellFormedItem)
  {
    forall s | ParseItem(s).Some?
      ensures WellFormedItem(ParseItem(s).value.0)
    {
      ParsedItemIsWellFormed(s);
    }
  }

  /** An item's line reads back as that item exactly when the item is
      well-formed: an empty or over-long name or description, or a '|' in
      either, makes it read back as something else, or not at all. */
  lemma {:induction false} ItemLineRoundTripsExactlyWhenWellFormed(x: Item, t: string)
    requires StartsClean(t)
    ensures ParseItem(EncodeItem(x) + t) == Some((x, t)) <==> WellFormedItem(x)
  {
    if WellFormedItem(x) {
      ParseEncodedItem(x, t);
    } else if ParseItem(EncodeItem(x) + t).Some? {
      ParsedItemIsWellFormed(EncodeItem(x) + t);
    }
  }

  /** add_equipment_interactive does not check the name, but an item saved
      with an empty name cannot be read back: `%49[^|]` matches nothing. */
  lemma {:induction false} EmptyNameDoesNotParse(e: Item, t: string)
    requires |e.name| == 0
    ensures ParseItem(EncodeItem(e) + t).None?
  {
    var rest := e.description + ("|" + (IntToString(e.quantity) + ("\n" + t)));
    ItemLineFields(e, t);
    assert e.name + ("|" + rest) == "|" + rest;
    EmptyNameStops(e.id, rest);
  }

  lemma {:induction false} EmptyNameStops(id: int, rest: string)
    ensures ParseItem(IntToString(id) + ("|" + ("|" + rest))).None?
  {
    ScanIntOfIntToString(id, "|" + ("|" + rest));
    ScanSetOfEmptyField('|', NameWidth, rest);
  }

  /** An item saved with an empty description cannot be read back either:
      `%99[^|]` matches nothing. */
  lemma {:induction false} EmptyDescriptionDoesNotParse(e: Item, t: string)
    requires 0 < |e.name| <= NameWidth && '|' !in e.name && |e.description| == 0
    ensures ParseItem(EncodeItem(e) + t).None?
  {
    var after := IntToString(e.quantity) + ("\n" + t);
    var rest := e.description + ("|" + after);
    ItemLineFields(e, t);
    ReachDescription(e.id, e.name, rest);
    assert rest == "|" + after;
    assert ("|" + rest)[1..] == rest;
    ScanSetOfEmptyField('|', DescriptionWidth, after);
  }

  /** A description containing '|' is cut at the first '|' when read back:
      unlike a plan's, it is not read to the end of the line. */
  lemma {:induction false} PipeInDescriptionIsCut(e: Item, t: string)
    requires 0 < |e.name| <= NameWidth && '|' !in e.name && '|' in e.description
    requires ParseItem(EncodeItem(e) + t).Some?
    ensures |ParseItem(EncodeItem(e) + t).value.0.description| < |e.description|
  {
    var rest := e.description + ("|" + (IntToString(e.quantity) + ("\n" + t)));
    ItemLineFields(e, t);
    ReachDescription(e.id, e.name, rest);
    var j :| 0 <= j < |e.description| && e.description[j] == '|';
    assert rest[j] == '|';
    SpanUntilStopsAt(rest, '|', DescriptionWidth, j);
    DescriptionIsScanned(e.id, e.name, rest);
  }

  /** After a readable id and name, reading goes on at the description. */
  lemma {:induction false} ReachDescription(id: int, name: string, rest: string)
    requires 0 < |name| <= NameWidth && '|' !in name
    ensures ParseItem(IntToString(id) + ("|" + (name + ("|" + rest)))) == ParseAfterName(id, name, "|" + rest)
  {
    ScanIntOfIntToString(id, "|" + (name + ("|" + rest)));
    ParseName(id, name, rest);
  }

  /** The description a successful read returns is the one the description
      directive scanned. */
  lemma {:induction false} DescriptionIsScanned(id: int, name: string, rest: string)
    requires ParseAfterName(id, name, "|" + rest).Some?
    ensures ParseAfterName(id, name, "|" + rest).value.0.description == rest[..SpanUntil(rest, '|', DescriptionWidth)]
  {
    assert ("|" + rest)[1..] == rest;
  }

  /** Saving items and loading the file gives them back exactly when
      every one of them is well-formed. */
  lemma SavedEquipmentLoadBackExactlyWhenWellFormed(s: seq<Item>)
    requires |s| <= MaxEquipment
    ensures Codec.LoadAsWritten(ParseItem, MaxEquipment, Some(Codec.FileText(EncodeItem, s))) == Codec.Loaded(|s|, s)
        <==> Codec.AllWellFormed(WellFormedItem, s)
    ensures Codec.Load(ParseItem, MaxEquipment, Some(Codec.FileText(EncodeItem, s))) == Codec.Loaded(|s|, s)
        <==> Codec.AllWellFormed(WellFormedItem, s)
  {
    ItemLinesRoundTrip();
    ItemReaderReadsWellFormed();
    Codec.SaveThenLoadExactlyWhenWellFormed(ParseItem, EncodeItem, WellFormedItem, MaxEquipment, s);
  }

  // ------------------------------------------------------------- the store

  /** add_equipment_interactive: refused when 100 items are stored;
      otherwise the new item, with the next id, goes into slot count. */
  method AddEquipment(equipment: Store<Item>, name: string, quantity: int, description: string) returns (added: bool)
    requires IsEquipmentStore(equipment)
    modifies equipment, equipment.items
    ensures IsEquipmentStore(equipment)
    ensures added <==> old(equipment.count) < MaxEquipment
    ensures !added ==> equipment.Contents() == old(equipment.Contents())
    ensures added ==>
      equipment.Contents() == old(equipment.Contents()) + [CreateItem(NextIdOf(ItemId, old(equipment.Contents())), name, description, quantity)]
    ensures DistinctKeys(ItemId, old(equipment.Contents())) ==> DistinctKeys(ItemId, equipment.Contents())
  {
    if equipment.count >= MaxEquipment {
      return false;
    }
    ghost var before := equipment.Contents();
    var id := equipment.NextId();
    var e := CreateItem(id, name, description, quantity);
    equipment.Append(e);
    if DistinctKeys(ItemId, before) {
      AppendNextIdKeepsDistinct(ItemId, before, e);
    }
    return true;
  }

  /** modify_equipment: 0 and no change when no item has the id; otherwise
      the first item with the id gets the field updates and 1 is returned,
      even when nothing changed. */
  method ModifyEquipment(equipment: Store<Item>, id: int, name: string, quantity: int, description: string) returns (modified: bool)
    requires IsEquipmentStore(equipment)
    modifies equipment.items
    ensures IsEquipmentStore(equipment)
    ensures var i := IndexOf(ItemId, old(equipment.Contents()), id);
      && (modified <==> i >= 0)
      && (i < 0 ==> equipment.Contents() == old(equipment.Contents()))
      && (i >= 0 ==> equipment.Contents() == old(equipment.Contents())[i := EditItem(old(equipment.Contents())[i], name, quantity, description)])
    ensures DistinctKeys(ItemId, old(equipment.Contents())) ==> DistinctKeys(ItemId, equipment.Contents())
  {
    var index := equipment.FindFirst(ItemId, id);
    if index == -1 {
      return false;
    }
    ghost var before := equipment.Contents();
    var e := EditItem(equipment.items[index], name, quantity, description);
    equipment.Put(index, e);
    if DistinctKeys(ItemId, before) {
      UpdateKeepingKeyKeepsDistinct(ItemId, before, index, e);
    }
    return true;
  }

  /** delete_equipment: 0 and no change when no item has the id; otherwise
      the first item with the id is removed, the later ones move down one
      slot and 1 is returned. With distinct ids the id is then gone. */
  method DeleteEquipment(equipment: Store<Item>, id: int) returns (deleted: bool)
    requires IsEquipmentStore(equipment)
    modifies equipment, equipment.items
    ensures IsEquipmentStore(equipment)
    ensures var i := IndexOf(ItemId, old(equipment.Contents()), id);
      && (deleted <==> i >= 0)
      && (i < 0 ==> equipment.Contents() == old(equipment.Contents()))
      && (i >= 0 ==> equipment.Contents() == Without(old(equipment.Contents()), i))
    ensures DistinctKeys(ItemId, old(equipment.Contents())) ==>
      DistinctKeys(ItemId, equipment.Contents()) && IndexOf(ItemId, equipment.Contents(), id) == -1
  {
    var index := equipment.FindFirst(ItemId, id);
    if index == -1 {
      return false;
    }
    ghost var before := equipment.Contents();
    equipment.RemoveAt(index);
    if DistinctKeys(ItemId, before) {
      WithoutKeepsDistinct(ItemId, before, index);
      WithoutRemovesKey(ItemId, before, id);
    }
    return true;
  }

  /** save_equipment_to_file: the text written to the equipment file. */
  method SaveEquipment(equipment: Store<Item>) returns (text: string)
    requires IsEquipmentStore(equipment)
    ensures text == Codec.FileText(EncodeItem, equipment.Contents())
    ensures Codec.Load(ParseItem, MaxEquipment, Some(text)) == Codec.Loaded(equipment.count, equipment.Contents())
        <==> Codec.AllWellFormed(WellFormedItem, equipment.Contents())
  {
    text := equipment.Save(EncodeItem);
    SavedEquipmentLoadBackExactlyWhenWellFormed(equipment.Contents());
  }

  /** load_equipment_from_file, with the count it returns corrected to the
      number of items read; None is a missing file. */
  method LoadEquipment(equipment: Store<Item>, file: Option<string>) returns (count: nat)
    requires IsEquipmentStore(equipment)
    modifies equipment, equipment.items
    ensures IsEquipmentStore(equipment) && count == equipment.count
    ensures Codec.Load(ParseItem, MaxEquipment, file) == Codec.Loaded(count, equipment.Contents())
  {
    count := equipment.Load(ParseItem, file);
  }
}
