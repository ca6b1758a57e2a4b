/** member.c: member accounts, kept in a store of at most 200 members and
    saved to the members file one `id|username|password|name|plan` line per
    member; account creation, login and plan subscription. */
module Members {
  import opened Format
  import Codec
  import opened RecordStore
  import Plans

  const MaxMembers: nat := 200
  /** The plan id of a member without a subscription. */
  const NoPlan: int := -1
  /** The username and password buffers hold 50 bytes, the name 100. */
  const UsernameWidth: nat := 49
  const PasswordWidth: nat := 49
  const NameWidth: nat := 99

  datatype Member = Member(id: int, username: string, password: string, name: string, currentPlan: int)

  function MemberId(m: Member): int { m.id }
  function Username(m: Member): string { m.username }

  ghost predicate IsMemberStore(members: Store<Member>)
    reads members
  {
    members.Valid() && members.capacity == MaxMembers && members.idOf == MemberId
  }

  // ------------------------------------------------------ account creation

  /** Why create_member_account refused, in the order it checks. */
  datatype AccountError = StoreFull | EmptyName | EmptyUsername | UsernameTaken | EmptyPassword | PasswordMismatch

  datatype Verdict = Accepted | Rejected(error: AccountError)

  ghost predicate UsernameFree(s: seq<Member>, username: string) {
    forall i :: 0 <= i < |s| ==> s[i].username != username
  }

  /** The checks of create_member_account, the first failing one deciding:
      a full store, an empty name, an empty username, a username already
      in use, an empty password, a confirmation that differs. */
  function CheckNewAccount(s: seq<Member>, name: string, username: string, password: string, confirm: string): (v: Verdict)
    ensures v == Rejected(StoreFull) <==> |s| >= MaxMembers
    ensures v == Rejected(EmptyName) <==> |s| < MaxMembers && |name| == 0
    ensures v == Rejected(EmptyUsername) <==> |s| < MaxMembers && |name| > 0 && |username| == 0
    ensures v == Rejected(UsernameTaken) <==>
      |s| < MaxMembers && |name| > 0 && |username| > 0 && !UsernameFree(s, username)
    ensures v == Rejected(EmptyPassword) <==>
      |s| < MaxMembers && |name| > 0 && |username| > 0 && UsernameFree(s, username) && |password| == 0
    ensures v == Rejected(PasswordMismatch) <==>
      |s| < MaxMembers && |name| > 0 && |username| > 0 && UsernameFree(s, username) && |password| > 0 && password != confirm
    ensures v == Accepted <==>
      |s| < MaxMembers && |name| > 0 && |username| > 0 && UsernameFree(s, username) && |password| > 0 && password == confirm
  {
    if |s| >= MaxMembers then Rejected(StoreFull)
    else if |name| == 0 then Rejected(EmptyName)
    else if |username| == 0 then Rejected(EmptyUsername)
    else if IndexOf(Username, s, username) != -1 then Rejected(UsernameTaken)
    else if |password| == 0 then Rejected(EmptyPassword)
    else if password != confirm then Rejected(PasswordMismatch)
    else Accepted
  }

  /** The member create_member_account stores: the next id and no plan. */
  function NewMember(s: seq<Member>, name: string, username: string, password: string): (m: Member)
    ensures m.currentPlan == NoPlan
    ensures m.username == username && m.password == password && m.name == name
    ensures forall i :: 0 <= i < |s| ==> s[i].id < m.id
  {
    Member(NextIdOf(MemberId, s), username, password, name, NoPlan)
  }

  /** An accepted account keeps usernames and ids pairwise distinct. */
  lemma {:induction false} AcceptedKeepsKeysDistinct(s: seq<Member>, name: string, username: string, password: string, confirm: string)
    requires CheckNewAccount(s, name, username, password, confirm) == Accepted
    ensures DistinctKeys(Username, s) ==> DistinctKeys(Username, s + [NewMember(s, name, username, password)])
    ensures DistinctKeys(MemberId, s) ==> DistinctKeys(MemberId, s + [NewMember(s, name, username, password)])
  {
    var m := NewMember(s, name, username, password);
    var u := s + [m];
    if DistinctKeys(Username, s) {
      forall i, j | 0 <= i < j < |u| ensures Username(u[i]) != Username(u[j]) {
        assert u[i] == s[i];
        if j < |s| { assert u[j] == s[j]; }
      }
    }
    if DistinctKeys(MemberId, s) {
      AppendNextIdKeepsDistinct(MemberId, s, m);
    }
  }

  /** create_member_account: the verdict of the checks; on acceptance the
      new member goes into slot count, and on refusal nothing changes. The
      texts are read into buffers of 100, 50, 50 and 50 bytes, so each holds
      at most its buffer's size less one characters. */
  method CreateMemberAccount(members: Store<Member>, name: string, username: string, password: string, confirm: string)
    returns (verdict: Verdict)
    requires IsMemberStore(members)
    requires |name| <= NameWidth && |username| <= UsernameWidth && |password| <= PasswordWidth && |confirm| <= PasswordWidth
    modifies members, members.items
    ensures IsMemberStore(members)
    ensures verdict == CheckNewAccount(old(members.Contents()), name, username, password, confirm)
    ensures verdict.Rejected? ==> members.Contents() == old(members.Contents())
    ensures verdict == Accepted ==>
      members.Contents() == old(members.Contents()) + [NewMember(old(members.Contents()), name, username, password)]
    ensures DistinctKeys(Username, old(members.Contents())) ==> DistinctKeys(Username, members.Contents())
    ensures DistinctKeys(MemberId, old(members.Contents())) ==> DistinctKeys(MemberId, members.Contents())
    ensures verdict == Accepted ==>
      (WellFormedMember(members.Contents()[members.count - 1]) <==> '|' !in name && '|' !in username && '|' !in password)
    ensures verdict == Accepted && Codec.AllWellFormed(WellFormedMember, old(members.Contents())) ==>
      (Codec.Load(ParseMember, MaxMembers, Some(Codec.FileText(EncodeMember, members.Contents())))
         == Codec.Loaded(members.count, members.Contents())
       <==> '|' !in name && '|' !in username && '|' !in password)
  {
    if members.count >= MaxMembers {
      return Rejected(StoreFull);
    }
    var id := members.NextId();
    if |name| == 0 {
      return Rejected(EmptyName);
    }
    if |username| == 0 {
      return Rejected(EmptyUsername);
    }
    var existing := members.FindFirst(Username, username);
    if existing != -1 {
      return Rejected(UsernameTaken);
    }
    if |password| == 0 {
      return Rejected(EmptyPassword);
    }
    if password != confirm {
      return Rejected(PasswordMismatch);
    }
    ghost var before := members.Contents();
    members.Append(Member(id, username, password, name, NoPlan));
    AcceptedKeepsKeysDistinct(before, name, username, password, confirm);
    AcceptedMemberIsWellFormed(before, name, username, password, confirm);
    Codec.AllWellFormedSnoc(WellFormedMember, before, NewMember(before, name, username, password));
    SavedMembersLoadBackExactlyWhenWellFormed(members.Contents());
    return Accepted;
  }

  // ------------------------------------------------------------------ login

  /** member_login: the index of the member with that username when the
      stored password equals the one given, else -1. */
  function LoginIndex(s: seq<Member>, username: string, password: string): (r: int)
    ensures -1 <= r < |s|
    ensures r >= 0 ==> s[r].username == username && s[r].password == password
  {
    var i := IndexOf(Username, s, username);
    if i == -1 || s[i].password != password then -1 else i
  }

  /** With distinct usernames, login returns i exactly when member i has
      that username and that password. */
  lemma {:induction false} LoginMatchesCredentials(s: seq<Member>, username: string, password: string, i: int)
    requires DistinctKeys(Username, s)
    ensures LoginIndex(s, username, password) == i && i >= 0
        <==> 0 <= i < |s| && s[i].username == username && s[i].password == password
  {
    if 0 <= i < |s| && s[i].username == username && s[i].password == password {
      var k := IndexOf(Username, s, username);
      assert k >= 0;
      assert Username(s[k]) == Username(s[i]);
    }
  }

  method MemberLogin(members: Store<Member>, username: string, password: string) returns (index: int)
    requires IsMemberStore(members)
    ensures index == LoginIndex(members.Contents(), username, password)
  {
    index := members.FindFirst(Username, username);
    if index == -1 {
      return -1;
    }
    if members.items[index].password != password {
      return -1;
    }
  }

  // ----------------------------------------------------------- subscription

  /** subscribe_to_plan: refused when the member already has that plan;
      otherwise the plan id is recorded, whether or not such a plan exists. */
  function Subscription(m: Member, planId: int): (r: Option<Member>)
    ensures r.None? <==> m.currentPlan == planId
    ensures r.Some? ==> r.value.currentPlan == planId && r.value.(currentPlan := m.currentPlan) == m
  {
    if m.currentPlan == planId then None else Some(m.(currentPlan := planId))
  }

  /** Asking for the same plan right after subscribing to it is refused. */
  lemma SubscribeTwiceRefused(m: Member, planId: int)
    requires Subscription(m, planId).Some?
    ensures Subscription(Subscription(m, planId).value, planId).None?
  {
  }

  method SubscribeToPlan(members: Store<Member>, i: nat, planId: int) returns (subscribed: bool)
    requires IsMemberStore(members) && i < members.count
    modifies members.items
    ensures IsMemberStore(members)
    ensures var r := Subscription(old(members.Contents())[i], planId);
      && (subscribed <==> r.Some?)
      && (!subscribed ==> members.Contents() == old(members.Contents()))
      && (subscribed ==> members.Contents() == old(members.Contents())[i := r.value])
    ensures DistinctKeys(Username, old(members.Contents())) ==> DistinctKeys(Username, members.Contents())
    ensures DistinctKeys(MemberId, old(members.Contents())) ==> DistinctKeys(MemberId, members.Contents())
  {
    var m := members.items[i];
    if m.currentPlan == planId {
      return false;
    }
    ghost var before := members.Contents();
    var updated := m.(currentPlan := planId);
    members.Put(i, updated);
    if DistinctKeys(Username, before) {
      UpdateKeepingKeyKeepsDistinct(Username, before, i, updated);
    }
    if DistinctKeys(MemberId, before) {
      UpdateKeepingKeyKeepsDistinct(MemberId, before, i, updated);
    }
    return true;
  }

  datatype SubscribeOutcome = Cancelled | InvalidPlan | AlreadySubscribed | Subscribed

  /** The subscribe choice of the member menu: plan id 0 cancels, an id
      that no loaded plan has is refused, and otherwise subscribe_to_plan
      decides. */
  method RequestSubscription(members: Store<Member>, i: nat, plans: Store<Plans.Plan>, planId: int)
    returns (outcome: SubscribeOutcome)
    requires IsMemberStore(members) && i < members.count && Plans.IsPlanStore(plans)
    modifies members.items
    ensures IsMemberStore(members)
    ensures outcome != Subscribed ==> members.Contents() == old(members.Contents())
    ensures outcome == Cancelled <==> planId == 0
    ensures outcome == InvalidPlan <==> planId != 0 && IndexOf(Plans.PlanId, plans.Contents(), planId) == -1
    ensures outcome == AlreadySubscribed <==>
      planId != 0 && IndexOf(Plans.PlanId, plans.Contents(), planId) >= 0 && old(members.Contents())[i].currentPlan == planId
    ensures outcome == Subscribed ==>
      && (exists k :: 0 <= k < plans.count && plans.Contents()[k].id == planId)
      && members.Contents() == old(members.Contents())[i := old(members.Contents())[i].(currentPlan := planId)]
  {
    if planId == 0 {
      return Cancelled;
    }
    var planIndex := plans.FindFirst(Plans.PlanId, planId);
    if planIndex == -1 {
      return InvalidPlan;
    }
    var subscribed := SubscribeToPlan(members, i, planId);
    outcome := if subscribed then Subscribed else AlreadySubscribed;
  }

  // -------------------------------------------------------------- the file

  /** A member the line format can carry: username and password of 1 to 49
      characters and a name of 1 to 99, none containing '|'. */
  predicate WellFormedMember(m: Member) {
    && 0 < |m.username| <= UsernameWidth && '|' !in m.username
    && 0 < |m.password| <= PasswordWidth && '|' !in m.password
    && 0 < |m.name| <= NameWidth && '|' !in m.name
  }

  /** fprintf(f, "%d|%s|%s|%s|%d\n", ...) */
  function EncodeMember(m: Member): (line: string)
    ensures |line| > 0 && !IsSpace(line[0])
  {
    IntToString(m.id) + "|" + m.username + "|" + m.password + "|" + m.name + "|" + IntToString(m.currentPlan) + "\n"
  }

  /** fscanf(f, "%d|%49[^|]|%49[^|]|%99[^|]|%d\n", ...), succeeding only
      when all five fields are read, one stage per field. */
  function ParseMember(s: string): Option<(Member, string)> {
    var idField :- ScanInt(s);
    ParseAfterId(idField.0, idField.1)
  }

  function ParseAfterId(id: int, s: string): Option<(Member, string)> {
    var r :- Expect(s, '|');
    var usernameField :- ScanSet(r, '|', UsernameWidth);
    ParseAfterUsername(id, usernameField.0, usernameField.1)
  }

  function ParseAfterUsername(id: int, username: string, s: string): Option<(Member, string)> {
    var r :- Expect(s, '|');
    var passwordField :- ScanSet(r, '|', PasswordWidth);
    ParseAfterPassword(id, username, passwordField.0, passwordField.1)
  }

  function ParseAfterPassword(id: int, username: string, password: string, s: string): Option<(Member, string)> {
    var r :- Expect(s, '|');
    var nameField :- ScanSet(r, '|', NameWidth);
    ParseAfterName(id, username, password, nameField.0, nameField.1)
  }

  function ParseAfterName(id: int, username: string, password: string, name: string, s: string): Option<(Member, string)> {
    var r :- Expect(s, '|');
    var planField :- ScanInt(r);
    Some((Member(id, username, password, name, planField.0), SkipSpace(planField.1)))
  }

  /** The text after the id of m's line followed by t. */
  function AfterIdText(m: Member, t: string): string {
    "|" + (m.username + ("|" + (m.password + ("|" + (m.name + ("|" + (IntToString(m.currentPlan) + ("\n" + t))))))))
  }

  lemma MemberLineFields(m: Member, t: string)
    ensures EncodeMember(m) + t == IntToString(m.id) + AfterIdText(m, t)
  {
    var a, c := IntToString(m.id), IntToString(m.currentPlan);
    var p6 := a + "|" + m.username + "|" + m.password + "|" + m.name;
    var x6 := "|" + (c + ("\n" + t));
    assert EncodeMember(m) + t == p6 + x6 by {
      Regroup(p6 + "|", c, "\n" + t);
      Regroup(p6 + "|" + c, "\n", t);
      Regroup(p6, "|", c + ("\n" + t));
    }
    var p2 := a + "|" + m.username;
    var x2 := "|" + (m.password + ("|" + (m.name + x6)));
    assert p6 + x6 == p2 + x2 by {
      Regroup(p2 + "|" + m.password + "|", m.name, x6);
      Regroup(p2 + "|" + m.password, "|", m.name + x6);
      Regroup(p2 + "|", m.password, "|" + (m.name + x6));
      Regroup(p2, "|", m.password + ("|" + (m.name + x6)));
    }
    Regroup(a + "|", m.username, x2);
    Regroup(a, "|", m.username + x2);
  }

  lemma {:induction false} ParsePlanField(m: Member, t: string)
    requires StartsClean(t)
    ensures ParseAfterName(m.id, m.username, m.password, m.name, "|" + (IntToString(m.currentPlan) + ("\n" + t))) == Some((m, t))
  {
    ExpectLiteral('|', IntToString(m.currentPlan) + ("\n" + t));
    ScanIntOfIntToString(m.currentPlan, "\n" + t);
    SkipLineEnd(t);
  }

  lemma {:induction false} ParseNameField(m: Member, t: string)
    requires WellFormedMember(m) && StartsClean(t)
    ensures ParseAfterPassword(m.id, m.username, m.password, "|" + (m.name + ("|" + (IntToString(m.currentPlan) + ("\n" + t)))))
         == Some((m, t))
  {
    var rest := IntToString(m.currentPlan) + ("\n" + t);
    assert m.name + ("|" + rest) == m.name + ['|'] + rest;
    ScanSetOfField(m.name, '|', NameWidth, rest);
    ParsePlanField(m, t);
  }

  lemma {:induction false} ParsePasswordField(m: Member, t: string)
    requires WellFormedMember(m) && StartsClean(t)
    ensures ParseAfterUsername(m.id, m.username,
              "|" + (m.password + ("|" + (m.name + ("|" + (IntToString(m.currentPlan) + ("\n" + t))))))) == Some((m, t))
  {
    var rest := m.name + ("|" + (IntToString(m.currentPlan) + ("\n" + t)));
    assert m.password + ("|" + rest) == m.password + ['|'] + rest;
    ScanSetOfField(m.password, '|', PasswordWidth, rest);
    ParseNameField(m, t);
  }

  lemma {:induction false} ParseUsernameField(m: Member, t: string)
    requires WellFormedMember(m) && StartsClean(t)
    ensures ParseAfterId(m.id, AfterIdText(m, t)) == Some((m, t))
  {
    var rest := m.password + ("|" + (m.name + ("|" + (IntToString(m.currentPlan) + ("\n" + t)))));
    assert m.username + ("|" + rest) == m.username + ['|'] + rest;
    ScanSetOfField(m.username, '|', UsernameWidth, rest);
    ParsePasswordField(m, t);
  }

  lemma {:induction false} ParseFields(m: Member, t: string)
    requires WellFormedMember(m) && StartsClean(t)
    ensures ParseMember(IntToString(m.id) + AfterIdText(m, t)) == Some((m, t))
  {
    ScanIntOfIntToString(m.id, AfterIdText(m, t));
    ParseUsernameField(m, t);
  }

  /** A well-formed member's line reads back as that member, leaving the
      text after the line untouched. */
  lemma {:induction false} ParseEncodedMember(m: Member, t: string)
    requires WellFormedMember(m) && StartsClean(t)
    ensures ParseMember(EncodeMember(m) + t) == Some((m, t))
  {
    MemberLineFields(m, t);
    ParseFields(m, t);
  }

  lemma MemberLinesRoundTrip()
    ensures Codec.RoundTrips(ParseMember, EncodeMember, WellFormedMember)
  {
    forall m, t | WellFormedMember(m) && StartsClean(t)
      ensures ParseMember(EncodeMember(m) + t) == Some((m, t))
    {
      ParseEncodedMember(m, t);
    }
  }

  /** Whatever the member reader returns is a well-formed member: each
      `%N[^|]` directive reads 1 to N characters, none of them '|'. */
  lemma {:induction false} ParsedMemberIsWellFormed(s: string)
    requires ParseMember(s).Some?
    ensures WellFormedMember(ParseMember(s).value.0)
  {
    var (id, r0) := ScanInt(s).value;
    var r1 := Expect(r0, '|').value;
    ScanSetIsField(r1, '|', UsernameWidth);
    var (username, r2) := ScanSet(r1, '|', UsernameWidth).value;
    var r3 := Expect(r2, '|').value;
    ScanSetIsField(r3, '|', PasswordWidth);
    var (password, r4) := ScanSet(r3, '|', PasswordWidth).value;
    var r5 := Expect(r4, '|').value;
    ScanSetIsField(r5, '|', NameWidth);
  }

  lemma MemberReaderReadsWellFormed()
    ensures Codec.ReadsOnlyWellFormed(ParseMember, WellFormedMember)
  {
    forall s | ParseMember(s).Some?
      ensures WellFormedMember(ParseMember(s).value.0)
    {
      ParsedMemberIsWellFormed(s);
    }
  }

  /** A member's line reads back as that member exactly when the member is
      well-formed: an empty or over-long username, password or name, or a
      '|' in any of them, makes it read back as something else, or not at
      all. */
  lemma {:induction false} MemberLineRoundTripsExactlyWhenWellFormed(x: Member, t: string)
    requires StartsClean(t)
    ensures ParseMember(EncodeMember(x) + t) == Some((x, t)) <==> WellFormedMember(x)
  {
    if WellFormedMember(x) {
      ParseEncodedMember(x, t);
    } else if ParseMember(EncodeMember(x) + t).Some? {
      ParsedMemberIsWellFormed(EncodeMember(x) + t);
    }
  }

  /** A member saved with an empty username cannot be read back:
      `%49[^|]` matches nothing. */
  lemma {:induction false} EmptyUsernameDoesNotParse(m: Member, t: string)
    requires |m.username| == 0
    ensures ParseMember(EncodeMember(m) + t).None?
  {
    var rest := m.password + ("|" + (m.name + ("|" + (IntToString(m.currentPlan) + ("\n" + t)))));
    MemberLineFields(m, t);
    assert AfterIdText(m, t) == "|" + ("|" + rest);
    ScanIntOfIntToString(m.id, "|" + ("|" + rest));
    ScanSetOfEmptyField('|', UsernameWidth, rest);
  }

  /** A password containing '|' is cut at the first '|' when read back, so
      the member's line never reads back as the member saved. */
  lemma {:induction false} PipeInPasswordIsCut(m: Member, t: string)
    requires 0 < |m.username| <= UsernameWidth && '|' !in m.username && '|' in m.password
    ensures ParseMember(EncodeMember(m) + t) != Some((m, t))
    ensures ParseMember(EncodeMember(m) + t).Some? ==> |ParseMember(EncodeMember(m) + t).value.0.password| < |m.password|
  {
    var rest := m.password + ("|" + (m.name + ("|" + (IntToString(m.currentPlan) + ("\n" + t)))));
    MemberLineFields(m, t);
    assert AfterIdText(m, t) == "|" + (m.username + ("|" + rest));
    ReachPassword(m.id, m.username, rest);
    if ParseAfterUsername(m.id, m.username, "|" + rest).Some? {
      var j :| 0 <= j < |m.password| && m.password[j] == '|';
      assert rest[j] == '|';
      SpanUntilStopsAt(rest, '|', PasswordWidth, j);
      PasswordIsScanned(m.id, m.username, rest);
    }
  }

  /** After a readable id and username, reading goes on at the password. */
  lemma {:induction false} ReachPassword(id: int, username: string, rest: string)
    requires 0 < |username| <= UsernameWidth && '|' !in username
    ensures ParseMember(IntToString(id) + ("|" + (username + ("|" + rest)))) == ParseAfterUsername(id, username, "|" + rest)
  {
    ScanIntOfIntToString(id, "|" + (username + ("|" + rest)));
    assert username + ("|" + rest) == username + ['|'] + rest;
    ScanSetOfField(username, '|', UsernameWidth, rest);
  }

  /** The password a successful read returns is the one the password
      directive scanned. */
  lemma {:induction false} PasswordIsScanned(id: int, username: string, rest: string)
    requires ParseAfterUsername(id, username, "|" + rest).Some?
    ensures ParseAfterUsername(id, username, "|" + rest).value.0.password == rest[..SpanUntil(rest, '|', PasswordWidth)]
  {
    assert ("|" + rest)[1..] == rest;
  }

  /** create_member_account checks for empty texts but not for '|': an
      accepted account whose texts fit their buffers is well-formed, and its
      line reads back as saved, exactly when none of its texts contains '|'. */
  lemma AcceptedMemberIsWellFormed(s: seq<Member>, name: string, username: string, password: string, confirm: string)
    requires CheckNewAccount(s, name, username, password, confirm) == Accepted
    requires |name| <= NameWidth && |username| <= UsernameWidth && |password| <= PasswordWidth
    ensures WellFormedMember(NewMember(s, name, username, password)) <==> '|' !in name && '|' !in username && '|' !in password
    ensures var m := NewMember(s, name, username, password);
      ParseMember(EncodeMember(m)) == Some((m, "")) <==> '|' !in name && '|' !in username && '|' !in password
  {
    var m := NewMember(s, name, username, password);
    MemberLineRoundTripsExactlyWhenWellFormed(m, "");
    assert EncodeMember(m) + "" == EncodeMember(m);
  }

  /** Saving members and loading the file gives them back exactly when
      every one of them is well-formed. */
  lemma SavedMembersLoadBackExactlyWhenWellFormed(s: seq<Member>)
    requires |s| <= MaxMembers
    ensures Codec.LoadAsWritten(ParseMember, MaxMembers, Some(Codec.FileText(EncodeMember, s))) == Codec.Loaded(|s|, s)
        <==> Codec.AllWellFormed(WellFormedMember, s)
    ensures Codec.Load(ParseMember, MaxMembers, Some(Codec.FileText(EncodeMember, s))) == Codec.Loaded(|s|, s)
        <==> Codec.AllWellFormed(WellFormedMember, s)
  {
    MemberLinesRoundTrip();
    MemberReaderReadsWellFormed();
    Codec.SaveThenLoadExactlyWhenWellFormed(ParseMember, EncodeMember, WellFormedMember, MaxMembers, s);
  }

  /** save_members_to_file: the text written to the members file. */
  method SaveMembers(members: Store<Member>) returns (text: string)
    requires IsMemberStore(members)
    ensures text == Codec.FileText(EncodeMember, members.Contents())
    ensures Codec.Load(ParseMember, MaxMembers, Some(text)) == Codec.Loaded(members.count, members.Contents())
        <==> Codec.AllWellFormed(WellFormedMember, members.Contents())
  {
    text := members.Save(EncodeMember);
    SavedMembersLoadBackExactlyWhenWellFormed(members.Contents());
  }

  /** load_members_from_file, with the count it returns corrected to the
      number of members read; None is a missing file. */
  method LoadMembers(members: Store<Member>, file: Option<string>) returns (count: nat)
    requires IsMemberStore(members)
    modifies members, members.items
    ensures IsMemberStore(members) && count == members.count
    ensures Codec.Load(ParseMember, MaxMembers, file) == Codec.Loaded(count, members.Contents())
  {
    count := members.Load(ParseMember, file);
  }
}
