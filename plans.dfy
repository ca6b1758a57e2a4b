/** plans.c: the subscription plans the gym offers, kept in a store of at
    most 50 plans and saved to the plans file one `id|name|price|description`
    line per plan. */
module Plans {
  import opened Format
  import Codec
  import opened RecordStore

  const MaxPlans: nat := 50
  /** The name and description buffers hold 50 and 100 bytes with their
      terminator. */
  const NameWidth: nat := 49
  const DescriptionWidth: nat := 99

  /** A plan; its monthly price is held as a whole number of cents. */
  datatype Plan = Plan(id: int, name: string, price: int, description: string)

  function PlanId(p: Plan): int { p.id }

  ghost predicate IsPlanStore(plans: Store<Plan>)
    reads plans
  {
    plans.Valid() && plans.capacity == MaxPlans && plans.idOf == PlanId
  }

  /** create_plan: copies the id and price, and keeps at most the first 49
      characters of the name and 99 of the description. */
  function CreatePlan(id: int, name: string, price: int, description: string): (p: Plan)
    ensures p.id == id && p.price == price
    ensures p.name <= name && |p.name| == if |name| <= NameWidth then |name| else NameWidth
    ensures p.description <= description
    ensures |p.description| == if |description| <= DescriptionWidth then |description| else DescriptionWidth
  {
    Plan(id, Truncate(name, NameWidth), price, Truncate(description, DescriptionWidth))
  }

  /** The field updates of modify_plan: an empty name or description, or a
      price that is not positive, keeps the current value; a new name or
      description is cut to its buffer. The id never changes. */
  function EditPlan(p: Plan, name: string, price: int, description: string): (q: Plan)
    ensures q.id == p.id
    ensures q.name == if |name| == 0 then p.name else CreatePlan(p.id, name, price, description).name
    ensures q.price == if price > 0 then price else p.price
    ensures q.description == if |description| == 0 then p.description else CreatePlan(p.id, name, price, description).description
  {
    p.(name := if |name| > 0 then Truncate(name, NameWidth) else p.name,
       price := if price > 0 then price else p.price,
       description := if |description| > 0 then Truncate(description, DescriptionWidth) else p.description)
  }

  /** Blank answers to every prompt leave the plan as it was. */
  lemma BlankEditKeepsPlan(p: Plan, price: int)
    requires price <= 0
    ensures EditPlan(p, "", price, "") == p
  {
  }

  /** Giving the same answers twice changes nothing the second time. */
  lemma EditPlanIdempotent(p: Plan, name: string, price: int, description: string)
    ensures EditPlan(EditPlan(p, name, price, description), name, price, description) == EditPlan(p, name, price, description)
  {
  }

  // -------------------------------------------------------------- the file

  /** A plan the line format can carry: a name of 1 to 49 characters with
      no '|', and a description of 1 to 99 characters with no line break
      (it is read to the end of the line, so it may contain '|'). */
  predicate WellFormedPlan(p: Plan) {
    && 0 < |p.name| <= NameWidth && '|' !in p.name
    && 0 < |p.description| <= DescriptionWidth && '\n' !in p.description
  }

  /** fprintf(f, "%d|%s|%.2f|%s\n", ...) */
  function EncodePlan(p: Plan): (line: string)
    ensures |line| > 0 && !IsSpace(line[0])
  {
    IntToString(p.id) + "|" + p.name + "|" + FormatCents(p.price) + "|" + p.description + "\n"
  }

  /** fscanf(f, "%d|%49[^|]|%f|%99[^\n]\n", ...), succeeding only when all
      four fields are read. The directives are taken in order, each stage
      reading one field and handing the rest of the text on. */
  function ParsePlan(s: string): Option<(Plan, string)> {
    var idField :- ScanInt(s);
    ParseAfterId(idField.0, idField.1)
  }

  function ParseAfterId(id: int, s: string): Option<(Plan, string)> {
    var r :- Expect(s, '|');
    var nameField :- ScanSet(r, '|', NameWidth);
    ParseAfterName(id, nameField.0, nameField.1)
  }

  function ParseAfterName(id: int, name: string, s: string): Option<(Plan, string)> {
    var r :- Expect(s, '|');
    var priceField :- ScanCents(r);
    ParseAfterPrice(id, name, priceField.0, priceField.1)
  }

  function ParseAfterPrice(id: int, name: string, price: int, s: string): Option<(Plan, string)> {
    var r :- Expect(s, '|');
    var descriptionField :- ScanSet(r, '\n', DescriptionWidth);
    Some((Plan(id, name, price, descriptionField.0), SkipSpace(descriptionField.1)))
  }

  lemma {:induction false} ParseDescription(p: Plan, t: string)
    requires WellFormedPlan(p) && StartsClean(t)
    ensures ParseAfterPrice(p.id, p.name, p.price, "|" + (p.description + ("\n" + t))) == Some((p, t))
  {
    assert p.description + ("\n" + t) == p.description + ['\n'] + t;
    ScanSetOfField(p.description, '\n', DescriptionWidth, t);
    SkipLineEnd(t);
  }

  lemma {:induction false} ParsePrice(p: Plan, t: string)
    requires WellFormedPlan(p) && StartsClean(t)
    ensures ParseAfterName(p.id, p.name, "|" + (FormatCents(p.price) + ("|" + (p.description + ("\n" + t))))) == Some((p, t))
  {
    ScanCentsOfFormatCents(p.price, "|" + (p.description + ("\n" + t)));
    ParseDescription(p, t);
  }

  lemma {:induction false} ParseName(p: Plan, t: string)
    requires WellFormedPlan(p) && StartsClean(t)
    ensures ParseAfterId(p.id, "|" + (p.name + ("|" + (FormatCents(p.price) + ("|" + (p.description + ("\n" + t))))))) == Some((p, t))
  {
    var rest := FormatCents(p.price) + ("|" + (p.description + ("\n" + t)));
    assert p.name + ("|" + rest) == p.name + ['|'] + rest;
    ScanSetOfField(p.name, '|', NameWidth, rest);
    ParsePrice(p, t);
  }

  /** A well-formed plan's line reads back as that plan, leaving the text
      after the line untouched. */
  lemma {:induction false} ParseEncodedPlan(p: Plan, t: string)
    requires WellFormedPlan(p) && StartsClean(t)
    ensures ParsePlan(EncodePlan(p) + t) == Some((p, t))
  {
    var afterId := "|" + (p.name + ("|" + (FormatCents(p.price) + ("|" + (p.description + ("\n" + t))))));
    PlanLineFields(p, t);
    ParseFields(p, t, afterId);
  }

  /** The line followed by t, as the sequence of pieces the directives read. */
  lemma PlanLineFields(p: Plan, t: string)
    ensures EncodePlan(p) + t
         == IntToString(p.id) + ("|" + (p.name + ("|" + (FormatCents(p.price) + ("|" + (p.description + ("\n" + t)))))))
  {
  }

  lemma {:induction false} ParseFields(p: Plan, t: string, afterId: string)
    requires WellFormedPlan(p) && StartsClean(t)
    requires afterId == "|" + (p.name + ("|" + (FormatCents(p.price) + ("|" + (p.description + ("\n" + t))))))
    ensures ParsePlan(IntToString(p.id) + afterId) == Some((p, t))
  {
    ScanIntOfIntToString(p.id, afterId);
    ParseName(p, t);
  }

  lemma PlanLinesRoundTrip()
    ensures Codec.RoundTrips(ParsePlan, EncodePlan, WellFormedPlan)
  {
    forall p, t | WellFormedPlan(p) && StartsClean(t)
      ensures ParsePlan(EncodePlan(p) + t) == Some((p, t))
    {
      ParseEncodedPlan(p, t);
    }
  }

  /** Whatever the plan reader returns is a well-formed plan: each `%N[^c]`
      directive reads 1 to N characters, none of them its stop character. */
  lemma {:induction false} ParsedPlanIsWellFormed(s: string)
    requires ParsePlan(s).Some?
    ensures WellFormedPlan(ParsePlan(s).value.0)
  {
    var (id, r0) := ScanInt(s).value;
    var r1 := Expect(r0, '|').value;
    ScanSetIsField(r1, '|', NameWidth);
    var (name, r2) := ScanSet(r1, '|', NameWidth).value;
    var r3 := Expect(r2, '|').value;
    var (price, r4) := ScanCents(r3).value;
    var r5 := Expect(r4, '|').value;
    ScanSetIsField(r5, '\n', DescriptionWidth);
  }

  lemma PlanReaderReadsWellFormed()
    ensures Codec.ReadsOnlyWellFormed(ParsePlan, WellFormedPlan)
  {
    forall s | ParsePlan(s).Some?
      ensures WellFormedPlan(ParsePlan(s).value.0)
    {
      ParsedPlanIsWellFormed(s);
    }
  }

  /** A plan's line reads back as that plan exactly when the plan is
      well-formed: an empty or over-long name or description, a '|' in the
      name or a line break in the description each make it read back as
      something else, or not at all. */
  lemma {:induction false} PlanLineRoundTripsExactlyWhenWellFormed(x: Plan, t: string)
    requires StartsClean(t)
    ensures ParsePlan(EncodePlan(x) + t) == Some((x, t)) <==> WellFormedPlan(x)
  {
    if WellFormedPlan(x) {
      ParseEncodedPlan(x, t);
    } else if ParsePlan(EncodePlan(x) + t).Some? {
      ParsedPlanIsWellFormed(EncodePlan(x) + t);
    }
  }

  /** A plan saved with an empty name cannot be read back: `%49[^|]`
      matches nothing. */
  lemma {:induction false} EmptyNameDoesNotParse(p: Plan, t: string)
    requires |p.name| == 0
    ensures ParsePlan(EncodePlan(p) + t).None?
  {
    var rest := FormatCents(p.price) + ("|" + (p.description + ("\n" + t)));
    PlanLineFields(p, t);
    assert p.name + ("|" + rest) == "|" + rest;
    EmptyNameStops(p.id, rest);
  }

  lemma {:induction false} EmptyNameStops(id: int, rest: string)
    ensures ParsePlan(IntToString(id) + ("|" + ("|" + rest))).None?
  {
    ScanIntOfIntToString(id, "|" + ("|" + rest));
    ScanSetOfEmptyField('|', NameWidth, rest);
  }

  /** A plan saved with an empty description cannot be read back either:
      `%99[^\n]` matches nothing. */
  lemma {:induction false} EmptyDescriptionDoesNotParse(p: Plan, t: string)
    requires 0 < |p.name| <= NameWidth && '|' !in p.name && |p.description| == 0
    ensures ParsePlan(EncodePlan(p) + t).None?
  {
    var afterPrice := "|" + ("\n" + t);
    var rest := FormatCents(p.price) + afterPrice;
    PlanLineFields(p, t);
    assert p.description + ("\n" + t) == "\n" + t;
    ScanIntOfIntToString(p.id, "|" + (p.name + ("|" + rest)));
    assert p.name + ("|" + rest) == p.name + ['|'] + rest;
    ScanSetOfField(p.name, '|', NameWidth, rest);
    ScanCentsOfFormatCents(p.price, afterPrice);
    ScanSetOfEmptyField('\n', DescriptionWidth, t);
  }

  /** A name containing '|' is cut at the first '|' when read back. */
  lemma {:induction false} PipeInNameIsCut(p: Plan, t: string)
    requires '|' in p.name
    requires ParsePlan(EncodePlan(p) + t).Some?
    ensures |ParsePlan(EncodePlan(p) + t).value.0.name| < |p.name|
  {
    var rest := p.name + ("|" + (FormatCents(p.price) + ("|" + (p.description + ("\n" + t)))));
    PlanLineFields(p, t);
    var j :| 0 <= j < |p.name| && p.name[j] == '|';
    assert rest[j] == '|';
    SpanUntilStopsAt(rest, '|', NameWidth, j);
    NameIsScanned(p.id, rest);
  }

  /** The name a successful read returns is the one the name directive
      scanned. */
  lemma {:induction false} NameIsScanned(id: int, rest: string)
    requires ParsePlan(IntToString(id) + ("|" + rest)).Some?
    ensures ParsePlan(IntToString(id) + ("|" + rest)).value.0.name == rest[..SpanUntil(rest, '|', NameWidth)]
  {
    ScanIntOfIntToString(id, "|" + rest);
    assert ParsePlan(IntToString(id) + ("|" + rest)) == ParseAfterId(id, "|" + rest);
    assert ("|" + rest)[1..] == rest;
    assert Expect("|" + rest, '|') == Some(rest);
    var n := SpanUntil(rest, '|', NameWidth);
    assert ParseAfterId(id, "|" + rest) == ParseAfterName(id, rest[..n], rest[n..]);
    NameCarried(id, rest[..n], rest[n..]);
  }

  /** The later stages keep the name they are handed. */
  lemma NameCarried(id: int, name: string, s: string)
    requires ParseAfterName(id, name, s).Some?
    ensures ParseAfterName(id, name, s).value.0.name == name
  {
  }

  /** Saving plans and loading the file gives them back exactly when
      every one of them is well-formed. */
  lemma SavedPlansLoadBackExactlyWhenWellFormed(s: seq<Plan>)
    requires |s| <= MaxPlans
    ensures Codec.LoadAsWritten(ParsePlan, MaxPlans, Some(Codec.FileText(EncodePlan, s))) == Codec.Loaded(|s|, s)
        <==> Codec.AllWellFormed(WellFormedPlan, s)
    ensures Codec.Load(ParsePlan, MaxPlans, Some(Codec.FileText(EncodePlan, s))) == Codec.Loaded(|s|, s)
        <==> Codec.AllWellFormed(WellFormedPlan, s)
  {
    PlanLinesRoundTrip();
    PlanReaderReadsWellFormed();
    Codec.SaveThenLoadExactlyWhenWellFormed(ParsePlan, EncodePlan, WellFormedPlan, MaxPlans, s);
  }

  // ------------------------------------------------------------- the store

  /** add_plan_interactive: refused when 50 plans are stored; otherwise the
      new plan, with the next id, goes into slot count. */
  method AddPlan(plans: Store<Plan>, name: string, price: int, description: string) returns (added: bool)
    requires IsPlanStore(plans)
    modifies plans, plans.items
    ensures IsPlanStore(plans)
    ensures added <==> old(plans.count) < MaxPlans
    ensures !added ==> plans.Contents() == old(plans.Contents())
    ensures added ==>
      plans.Contents() == old(plans.Contents()) + [CreatePlan(NextIdOf(PlanId, old(plans.Contents())), name, price, description)]
    ensures DistinctKeys(PlanId, old(plans.Contents())) ==> DistinctKeys(PlanId, plans.Contents())
  {
    if plans.count >= MaxPlans {
      return false;
    }
    ghost var before := plans.Contents();
    var id := plans.NextId();
    var p := CreatePlan(id, name, price, description);
    plans.Append(p);
    if DistinctKeys(PlanId, before) {
      AppendNextIdKeepsDistinct(PlanId, before, p);
    }
    return true;
  }

  /** modify_plan: 0 and no change when no plan has the id; otherwise the
      first plan with the id gets the field updates and 1 is returned, even
      when nothing changed. */
  method ModifyPlan(plans: Store<Plan>, id: int, name: string, price: int, description: string) returns (modified: bool)
    requires IsPlanStore(plans)
    modifies plans.items
    ensures IsPlanStore(plans)
    ensures var i := IndexOf(PlanId, old(plans.Contents()), id);
      && (modified <==> i >= 0)
      && (i < 0 ==> plans.Contents() == old(plans.Contents()))
      && (i >= 0 ==> plans.Contents() == old(plans.Contents())[i := EditPlan(old(plans.Contents())[i], name, price, description)])
    ensures DistinctKeys(PlanId, old(plans.Contents())) ==> DistinctKeys(PlanId, plans.Contents())
  {
    var index := plans.FindFirst(PlanId, id);
    if index == -1 {
      return false;
    }
    ghost var before := plans.Contents();
    var p := EditPlan(plans.items[index], name, price, description);
    plans.Put(index, p);
    if DistinctKeys(PlanId, before) {
      UpdateKeepingKeyKeepsDistinct(PlanId, before, index, p);
    }
    return true;
  }

  /** delete_plan: 0 and no change when no plan has the id; otherwise the
      first plan with the id is removed, the later ones move down one slot
      and 1 is returned. With distinct ids the id is then gone. */
  method DeletePlan(plans: Store<Plan>, id: int) returns (deleted: bool)
    requires IsPlanStore(plans)
    modifies plans, plans.items
    ensures IsPlanStore(plans)
    ensures var i := IndexOf(PlanId, old(plans.Contents()), id);
      && (deleted <==> i >= 0)
      && (i < 0 ==> plans.Contents() == old(plans.Contents()))
      && (i >= 0 ==> plans.Contents() == Without(old(plans.Contents()), i))
    ensures DistinctKeys(PlanId, old(plans.Contents())) ==>
      DistinctKeys(PlanId, plans.Contents()) && IndexOf(PlanId, plans.Contents(), id) == -1
  {
    var index := plans.FindFirst(PlanId, id);
    if index == -1 {
      return false;
    }
    ghost var before := plans.Contents();
    plans.RemoveAt(index);
    if DistinctKeys(PlanId, before) {
      WithoutKeepsDistinct(PlanId, before, index);
      WithoutRemovesKey(PlanId, before, id);
    }
    return true;
  }

  /** save_plans_to_file: the text written to the plans file. */
  method SavePlans(plans: Store<Plan>) returns (text: string)
    requires IsPlanStore(plans)
    ensures text == Codec.FileText(EncodePlan, plans.Contents())
    ensures Codec.Load(ParsePlan, MaxPlans, Some(text)) == Codec.Loaded(plans.count, plans.Contents())
        <==> Codec.AllWellFormed(WellFormedPlan, plans.Contents())
  {
    text := plans.Save(EncodePlan);
    SavedPlansLoadBackExactlyWhenWellFormed(plans.Contents());
  }

  /** load_plans_from_file, with the count it returns corrected to the
      number of plans read; None is a missing file. */
  method LoadPlans(plans: Store<Plan>, file: Option<string>) returns (count: nat)
    requires IsPlanStore(plans)
    modifies plans, plans.items
    ensures IsPlanStore(plans) && count == plans.count
    ensures Codec.Load(ParsePlan, MaxPlans, file) == Codec.Loaded(count, plans.Contents())
  {
    count := plans.Load(ParsePlan, file);
  }

  /** With plans 1, 2 and 3 stored, deleting plan 3 makes the next new plan
      get id 3 again. */
  lemma {:induction false} NextIdAfterDeletingLastOfThree(a: Plan, b: Plan, c: Plan)
    requires a.id == 1 && b.id == 2 && c.id == 3
    ensures NextIdOf(PlanId, [a, b, c]) == 4
    ensures NextIdOf(PlanId, Without([a, b, c], 2)) == 3
  {
    var s := [a, b, c];
    assert PlanId(s[0]) == 1 && PlanId(s[1]) == 2 && PlanId(s[2]) == 3;
    assert MaxId(PlanId, s) == 3;
    NextIdReusesDeletedMax(PlanId, s, 2, 1);
  }

  /** Deleting plan 1 from the plans with ids 1 and 2 gives the next plan
      id 3, not 1: ids are allocated past the highest one, not reused from
      the gaps. */
  lemma NextIdAfterDeletingFirstOfTwo(a: Plan, b: Plan)
    requires a.id == 1 && b.id == 2
    ensures NextIdOf(PlanId, Without([a, b], 0)) == 3
  {
    assert Without([a, b], 0) == [b];
  }
}
