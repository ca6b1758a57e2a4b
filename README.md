# Gym management records in Dafny

This project models the record keeping of a console gym-management program
written in C. The program keeps three fixed-capacity stores: training plans
(50 slots), equipment items (100 slots) and members (200 slots). Each store
is an array with a count.

- **Ids.** A new record's id is one more than the highest id stored, or 1 in
  an empty store. Deleting plan 1 from plans 1 and 2 gives the next plan
  id 3, one above the highest remaining id
  (Plans.NextIdAfterDeletingFirstOfTwo). An id is handed out again only
  after the record with the highest id is deleted
  (RecordStore.NextIdReusesDeletedMax, Plans.NextIdAfterDeletingLastOfThree).
- **Lookup and delete.** Records are found by a linear scan. Deleting a
  record moves every later record down one slot.
- **Files.** Each store is saved to a text file: a count line, then one
  `|`-separated line per record, written with `fprintf`. The file is read
  back with `fscanf` at start-up.
- **Members.** Members create accounts through a fixed sequence of checks,
  log in by username and password, and subscribe to a plan.
- **Administrator.** The administrator logs in with fixed credentials and
  adds, modifies and deletes plans and equipment; members can only be
  viewed, searched for and deleted. Plan and equipment changes rewrite the
  file.

The modules are:

- `Format` (format.dfy): the pieces of the C library the program relies on,
  stated over `string`:
  - `strncpy` into a fixed buffer, and `strcmp`;
  - `%d` and `%.2f` printing;
  - `%d`, `%f` and `%N[^c]` scanning.
- `Codec` (codec.dfy): the save and load loops shared by the three entities.
  They are generic in the line encoder and the line parser. The load is
  given twice: as written (`LoadAsWritten`) and with its returned count
  corrected (`Load`); see Findings.
- `RecordStore` (store.dfy): the fixed-capacity store as a class over an
  array. It holds the next-id, find, append, overwrite, shift-delete, save
  and load loops, and the facts about ids and keys they preserve.
- `Plans` (plans.dfy), `Equipment` (equipment.dfy) and `Members`
  (members.dfy): each entity's record, its constructor and edit rules, its
  line format, and its store operations.
- `Admin` (admin.dfy): the administrator's login and the management
  actions, each paired with the file it rewrites.

File contents are values: a file that does not exist is `None`, and a
written file is `Some(text)`. Operator input arrives as parameters. A plan's
price is a number of cents.

## Model

| member | source | states |
|---|---|---|
| Format.Truncate | src/plans.c:11-12 | copying into a fixed buffer keeps a prefix of the input, of exactly min(length, width) characters |
| Format.StrCmp | src/member.c:21 | the comparison is 0 exactly when the two strings are equal |
| Format.ScanIntOfIntToString | src/plans.c:176 | `%d` reads back exactly the integer `%d` printed and stops at the next non-digit |
| Format.ScanCentsOfFormatCents | src/plans.c:185 | the price reader reads back exactly the amount the `%.2f` writer printed (see Left out) |
| Format.ScanSetOfField | src/plans.c:185 | a `%N[^c]` directive reads a non-empty field of at most N characters without the stop character whole, and stops in front of the stop character |
| Format.ScanSetOfEmptyField | src/equipment.c:185 | a `%N[^c]` directive fails when the stop character comes first |
| Format.ScanSetIsField | src/plans.c:185 | whatever a `%N[^c]` directive reads is 1 to N characters, none of them the stop character |
| Format.SpanUntilStopsAt | src/equipment.c:185 | a `%N[^c]` directive never reads past the first stop character |
| Codec.ReadLimit | src/plans.c:183 | the read loop runs min(count, capacity) times, and not at all for a count of 0 or below |
| Codec.ReadRecords | src/plans.c:183-197 | the read loop returns at most the asked number of records, and reports completion exactly when it read that many |
| Codec.ReadEncoded | src/plans.c:214-220 | reading the written lines of well-formed records gives back those records in order, then goes on with whatever follows |
| Codec.LoadMissingFile | src/plans.c:168-173 | a missing file loads nothing and returns 0 |
| Codec.LoadBadCountLine | src/plans.c:175-180 | a file whose count line is not an integer loads nothing and returns 0 |
| Codec.LoadReads | src/equipment.c:175-197 | after a readable count line, the load holds what the read loop read and returns its number |
| Codec.Load | src/plans.c:167-202 | the corrected load returns exactly the number of records stored, never more than the capacity; it stores the same records as the code, and returns the same count whenever the code's count is between 0 and the capacity |
| Codec.SaveThenLoad | src/plans.c:204-224 | saving well-formed records within capacity and loading the file gives back the same records and count, both as written and corrected |
| Codec.ReadRecordsWellFormed | src/plans.c:183-197 | when the record reader only returns well-formed records, every record the read loop keeps is well-formed |
| Codec.SaveThenLoadExactlyWhenWellFormed | src/plans.c:167-224 | for a reader that only returns well-formed records, saving records within capacity and loading the file gives them back, under either load, exactly when every record is well-formed |
| Codec.LoadBoundedByCapacity | src/plans.c:183-201 | with a full file and a count line above the capacity, the code returns the count line's value, and the corrected load returns the capacity |
| Codec.NegativeCountLine | src/member.c:243-265 | a negative count line makes the code return that negative number with nothing loaded; the corrected load returns 0 |
| Codec.LoadStopsAtBadRecord | src/plans.c:191-196 | when the record after n good ones cannot be read, the load keeps the n good records and returns n |
| RecordStore.MaxId | src/plans.c:48-55 | the highest id is at least every stored id, and some record has it |
| RecordStore.NextIdOf | src/plans.c:42-60 | the next id is 1 for an empty store; otherwise it is above every stored id and exactly one above the highest |
| RecordStore.IndexOf | src/plans.c:88-95 | the search gives -1 exactly when no record has the key; otherwise it gives the first record with the key |
| RecordStore.WithoutIndices | src/plans.c:155-161 | the shift-delete keeps the records before the slot and moves each later record down one slot, and the count drops by one |
| RecordStore.AppendNextIdKeepsDistinct | src/plans.c:81-83 | appending a record with the next id keeps ids distinct |
| RecordStore.WithoutKeepsDistinct | src/equipment.c:155-161 | a shift-delete keeps keys distinct |
| RecordStore.WithoutRemovesKey | src/admin.c:217-228 | with distinct keys, after deleting the found record no record has its key, and every record with another key remains |
| RecordStore.UpdateKeepingKeyKeepsDistinct | src/equipment.c:113-139 | overwriting a record in place without changing its key keeps keys distinct |
| RecordStore.NextIdAfterDeletingBelowMax | src/equipment.c:42-60 | deleting a record that does not hold the highest id leaves the next id unchanged |
| RecordStore.NextIdAfterDeletingMax | src/member.c:7-17 | with distinct ids, deleting the record with the highest id makes the next id no greater than the deleted id |
| RecordStore.NextIdReusesDeletedMax | src/plans.c:42-60 | with distinct ids, when another record holds the id just below the highest, deleting the record with the highest id makes the next id exactly the deleted id, so that id is handed out again |
| RecordStore.Store.constructor | src/main.c:10-16 | a new store is empty, with the given capacity and id field |
| RecordStore.Store.NextId | src/member.c:7-17 | the next-id loop computes the next id of the stored records (the plan and equipment versions are the same loop) |
| RecordStore.Store.FindFirst | src/member.c:19-26 | the search loop returns the first index whose key matches, or -1 (the plan and equipment searches are the same loop) |
| RecordStore.Store.Append | src/plans.c:82-83 | writing slot count and incrementing count appends the record and changes nothing else |
| RecordStore.Store.Put | src/plans.c:117-138 | overwriting a slot in place replaces that one record |
| RecordStore.Store.RemoveAt | src/plans.c:155-161 | the shift loop leaves the stored records as the sequence without the deleted slot |
| RecordStore.Store.Save | src/plans.c:212-220 | the save loop writes the count line followed by each record's line, in order |
| RecordStore.Store.Load | src/equipment.c:167-202 | loading fills the store with what the corrected load gives and returns its count |
| RecordStore.Store.ReadInto | src/plans.c:183-197 | the read loop stores exactly the records of the read-loop function, in slots 0 to n-1 |
| Plans.CreatePlan | src/plans.c:6-20 | a new plan has the given id and price, and a name and description cut to 49 and 99 characters |
| Plans.EditPlan | src/plans.c:109-139 | a modification keeps the id; an empty name or description and a price of 0 or less keep the current value; any other input replaces it (cut to width) |
| Plans.BlankEditKeepsPlan | src/plans.c:113-139 | a modification with empty texts and a non-positive price leaves the plan unchanged |
| Plans.EditPlanIdempotent | src/plans.c:109-139 | repeating the same modification changes nothing more |
| Plans.EncodePlan | src/plans.c:215-219 | a plan's line starts with its id, never with white space, so the reader's skipping of white space cannot eat into it |
| Plans.ParseEncodedPlan | src/plans.c:185-189 | reading a well-formed plan's written line gives back the same plan and stops after the line |
| Plans.PlanLinesRoundTrip | src/plans.c:185-219 | the plan line reader inverts the plan line writer on every well-formed plan |
| Plans.EmptyNameDoesNotParse | src/plans.c:185 | a plan saved with an empty name cannot be read back, so the load stops there |
| Plans.EmptyDescriptionDoesNotParse | src/plans.c:185 | a plan saved with a readable name and an empty description cannot be read back |
| Plans.PipeInNameIsCut | src/plans.c:185 | a plan name containing the field separator (a vertical bar) comes back shorter when read |
| Plans.ParsedPlanIsWellFormed | src/plans.c:185-189 | every plan the line reader returns has a name of 1 to 49 characters without a vertical bar and a description of 1 to 99 characters without a line break |
| Plans.PlanLineRoundTripsExactlyWhenWellFormed | src/plans.c:185-219 | a plan's written line reads back as that plan exactly when the plan is well-formed, so an empty or over-long field, a vertical bar in the name or a line break in the description each break the round trip |
| Plans.SavedPlansLoadBackExactlyWhenWellFormed | src/plans.c:167-224 | saving up to 50 plans and loading the file gives back the same plans and count, under the code's load and the corrected one, exactly when every plan is well-formed |
| Plans.AddPlan | src/plans.c:62-86 | refused exactly when 50 plans are stored; otherwise appends the new plan with the next id, and ids stay distinct |
| Plans.ModifyPlan | src/plans.c:97-143 | succeeds exactly when a plan has the id; then only that plan changes, by the edit rules, and ids stay distinct |
| Plans.DeletePlan | src/plans.c:145-165 | succeeds exactly when a plan has the id; then that plan is removed with the later ones shifted down, and with distinct ids the id is no longer found |
| Plans.SavePlans | src/plans.c:204-224 | the text written is the plan file of the stored plans, and loading it gives back the store exactly when every plan is well-formed |
| Plans.LoadPlans | src/plans.c:167-202 | the store holds what the corrected load gives, and the returned count equals the stored count |
| Plans.NextIdAfterDeletingFirstOfTwo | src/plans.c:42-60 | with plans 1 and 2 stored, deleting plan 1 makes the next new plan get id 3 |
| Plans.NextIdAfterDeletingLastOfThree | src/plans.c:42-60 | with plans 1, 2 and 3 stored the next id is 4, and after deleting plan 3 the next new plan gets id 3 again |
| Equipment.CreateItem | src/equipment.c:6-20 | a new item has the given id and quantity, and a name and description cut to 49 and 99 characters |
| Equipment.EditItem | src/equipment.c:109-139 | a modification keeps the id; an empty name or description and a quantity of 0 or less keep the current value; any other input replaces it (cut to width) |
| Equipment.BlankEditKeepsItem | src/equipment.c:113-139 | a modification with empty texts and a non-positive quantity leaves the item unchanged |
| Equipment.EditItemIdempotent | src/equipment.c:97-143 | repeating the same modification changes nothing more |
| Equipment.EncodeItem | src/equipment.c:215-219 | an item's line starts with its id, never with white space |
| Equipment.ParseEncodedItem | src/equipment.c:185-189 | reading a well-formed item's written line gives back the same item and stops after the line |
| Equipment.ItemLinesRoundTrip | src/equipment.c:185-219 | the item line reader inverts the item line writer on every well-formed item |
| Equipment.EmptyNameDoesNotParse | src/equipment.c:185 | an item saved with an empty name cannot be read back |
| Equipment.EmptyDescriptionDoesNotParse | src/equipment.c:185 | an item saved with a readable name and an empty description cannot be read back |
| Equipment.PipeInDescriptionIsCut | src/equipment.c:185-189 | an item description containing the field separator (a vertical bar) comes back shorter when read |
| Equipment.ParsedItemIsWellFormed | src/equipment.c:185-189 | every item the line reader returns has a name of 1 to 49 and a description of 1 to 99 characters, neither with a vertical bar |
| Equipment.ItemLineRoundTripsExactlyWhenWellFormed | src/equipment.c:185-219 | an item's written line reads back as that item exactly when the item is well-formed, so an empty or over-long field or a vertical bar in the name or description breaks the round trip |
| Equipment.SavedEquipmentLoadBackExactlyWhenWellFormed | src/equipment.c:167-224 | saving up to 100 items and loading the file gives back the same items and count, under the code's load and the corrected one, exactly when every item is well-formed |
| Equipment.AddEquipment | src/equipment.c:62-86 | refused exactly when 100 items are stored; otherwise appends the new item with the next id, and ids stay distinct |
| Equipment.ModifyEquipment | src/equipment.c:97-143 | succeeds exactly when an item has the id; then only that item changes, by the edit rules, and ids stay distinct |
| Equipment.DeleteEquipment | src/equipment.c:145-165 | succeeds exactly when an item has the id; then that item is removed with the later ones shifted down, and with distinct ids the id is no longer found |
| Equipment.SaveEquipment | src/equipment.c:204-224 | the text written is the equipment file of the stored items, and loading it gives back the store exactly when every item is well-formed |
| Equipment.LoadEquipment | src/equipment.c:167-202 | the store holds what the corrected load gives, and the returned count equals the stored count |
| Members.CheckNewAccount | src/member.c:29-78 | the account checks in the code's order: a full store, an empty name, an empty username, a username in use, an empty password, a mismatched confirmation; each verdict holds exactly when its check is the first to fail, and acceptance exactly when none fails |
| Members.NewMember | src/member.c:34-36 | a new member has no plan, the given name, username and password, and an id above every stored id |
| Members.AcceptedKeepsKeysDistinct | src/member.c:56-81 | adding an accepted account keeps usernames distinct and ids distinct |
| Members.CreateMemberAccount | src/member.c:28-88 | the store changes only on acceptance, by appending the new member; usernames and ids stay distinct; the new member is well-formed exactly when none of its texts contains a vertical bar, and when the members already stored are well-formed, the saved member file loads back as the store exactly then |
| Members.AcceptedMemberIsWellFormed | src/member.c:40-81 | an accepted account whose texts fit their buffers is well-formed, and its written line reads back as that member, exactly when none of its texts contains a vertical bar, which no check of account creation rules out |
| Members.LoginIndex | src/member.c:90-116 | a login result other than -1 is a member whose username and password both match |
| Members.LoginMatchesCredentials | src/member.c:98-115 | with distinct usernames, the login gives index i exactly when member i has both the username and the password |
| Members.MemberLogin | src/member.c:90-116 | the login over the store gives the index the login function specifies |
| Members.Subscription | src/member.c:132-142 | subscribing is refused exactly when the member already has that plan; otherwise only the plan changes |
| Members.SubscribeTwiceRefused | src/member.c:133-136 | a second subscription to the same plan is refused |
| Members.SubscribeToPlan | src/member.c:132-142 | the store changes only on success, and then only that member's plan; usernames and ids stay distinct |
| Members.RequestSubscription | src/member.c:181-201 | plan id 0 cancels; an id no plan has is refused; the member's current plan is refused again; otherwise the member now has that plan, which exists in the plan store |
| Members.EncodeMember | src/member.c:279-284 | a member's line starts with its id, never with white space |
| Members.ParseEncodedMember | src/member.c:251-256 | reading a well-formed member's written line gives back the same member and stops after the line |
| Members.MemberLinesRoundTrip | src/member.c:251-284 | the member line reader inverts the member line writer on every well-formed member |
| Members.EmptyUsernameDoesNotParse | src/member.c:251-256 | a member saved with an empty username cannot be read back |
| Members.PipeInPasswordIsCut | src/member.c:251-256 | a member whose password contains a vertical bar never reads back as saved: the password read, if any, is shorter |
| Members.ParsedMemberIsWellFormed | src/member.c:251-256 | every member the line reader returns has a username and password of 1 to 49 and a name of 1 to 99 characters, none with a vertical bar |
| Members.MemberLineRoundTripsExactlyWhenWellFormed | src/member.c:251-284 | a member's written line reads back as that member exactly when the member is well-formed, so an empty or over-long field or a vertical bar in the username, password or name breaks the round trip |
| Members.SavedMembersLoadBackExactlyWhenWellFormed | src/member.c:235-289 | saving up to 200 members and loading the file gives back the same members and count, under the code's load and the corrected one, exactly when every member is well-formed |
| Members.SaveMembers | src/member.c:268-289 | the text written is the member file of the stored members, and loading it gives back the store exactly when every member is well-formed |
| Members.LoadMembers | src/member.c:235-266 | the store holds what the corrected load gives, and the returned count equals the stored count |
| Admin.AdminLogin | src/admin.c:6-29 | the login succeeds exactly when the username is "admin" and the password "admin123" |
| Admin.DeleteMemberByUsername | src/admin.c:209-235 | an empty store and an unknown username change nothing; otherwise the first member with the username is removed by shifting; with distinct usernames none is left and every other member remains |
| Admin.AdminAddPlan | src/admin.c:46-50 | the add runs as in the plan store, and the plan file is rewritten with the resulting plans whether or not a plan was added |
| Admin.AdminModifyPlan | src/admin.c:57-68 | the plan file is rewritten exactly when a plan with the id was modified |
| Admin.AdminDeletePlan | src/admin.c:70-81 | the plan file is rewritten exactly when a plan with the id was deleted |
| Admin.AdminAddEquipment | src/admin.c:109-113 | the add runs as in the equipment store, and the equipment file is rewritten with the resulting items whether or not an item was added |
| Admin.AdminModifyEquipment | src/admin.c:120-131 | the equipment file is rewritten exactly when an item with the id was modified |
| Admin.AdminDeleteEquipment | src/admin.c:133-144 | the equipment file is rewritten exactly when an item with the id was deleted |

## Left out

- Console I/O, menus, prompts, `pause_screen` and every display routine (`display_plans`, `display_member_profile`, the member list and search views). They print and do not change state. Operator input arrives as parameters, already read.
- `get_string_input`, `get_int_input` and `get_float_input` (utils.c) are not part of this model. Their results are taken as given strings and integers. Plan and equipment texts are cut to their field widths by the copy into the record. The member texts are not cut: Members.CreateMemberAccount requires each of them to fit its buffer, as the bounded read guarantees. Input longer than a buffer is left unread for the next prompt, and that is not modelled.
- Files are values (`Option<string>`), and `fopen`/`fclose` are not modelled. An open failure on save (the "Cannot save" branch) is left out, so a save always writes its text.
- When a record cannot be read, the code leaves whatever `fscanf` had already stored in that slot, beyond the returned count. The model does not keep those stale fields, since they are past the count and never read.
- Format.ScanCentsOfFormatCents: prices are whole cents, not `float`. The reader accepts an optional sign, digits, and a '.' followed by digits; fraction digits past the second are dropped rather than rounded. The exponent forms, hexadecimal floating input (`0x1.8p3`), `inf`/`nan` and float rounding of `%f` and `%.2f` are not modelled.
- Format.StrCmp: only the sign of `strcmp` at 0 is modelled (equal or not). Its requires excludes strings holding NUL, which a C string cannot carry.
- RecordStore.NextIdOf: the C `int` overflow of `max_id + 1` at `INT_MAX` is not modelled, and neither is overflow of `%d` when reading. Ids are unbounded integers.
- The save-everything sequences of main.c (after member login, after the admin menu, at exit) are not modelled as such; each is a sequence of the save operations that are.
- Members.RequestSubscription models the subscribe choice of the member menu. Its plan store is the one the menu loaded at entry, and the caller's rewrite of the member file is the separate save operation.
- Admin.DeleteMemberByUsername: the member file is not rewritten here; the code saves members only when the admin menu is left, and that is the save operation above.
- The member-plan link is not checked against the plan store, except at subscription. Deleting a plan leaves members pointing at it, as the code does.
- Format.Truncate: texts are sequences of characters, each taken as one byte. The C widths count bytes: `strncpy` with a limit of 49 or 99 and the `%49[^|]`-style reads can cut a multi-byte UTF-8 character in the middle, and a text of 30 two-byte characters is cut in C but kept whole by the model. The model does not capture multi-byte characters.

## Findings

| source | as written | input that shows it | evidently intended | confidence | as-written member | corrected member |
|---|---|---|---|---|---|---|
| src/plans.c:183-201 (the same in src/equipment.c:183-201 and src/member.c:250-265) | after reading all records, the load returns the count line's value, even when it is above the capacity or negative; the caller stores it as the record count | a plans file whose count line is 60, followed by 50 valid plan lines: 50 plans are stored but 60 is returned; a count line of -3 returns -3 | the load returns the number of records actually stored, between 0 and the capacity | not executed | Codec.LoadBoundedByCapacity | Codec.Load |
