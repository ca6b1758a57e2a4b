/** admin.c: the administrator's login and the management actions, each of
    which updates one store and, for plans and equipment, rewrites its
    file after a change. A rewritten file is returned as Some(text); None
    means the file is not written. */
module Admin {
  import opened Format
  import Codec
  import opened RecordStore
  import Plans
  import Equipment
  import Members

  /** The fixed administrator credentials. */
  const AdminUsername: string := "admin"
  const AdminPassword: string := "admin123"

  /** admin_login: both strcmp results must be 0. */
  function AdminLogin(username: string, password: string): (ok: bool)
    requires CString(username) && CString(password)
    ensures ok <==> username == AdminUsername && password == AdminPassword
  {
    StrCmp(username, AdminUsername) == 0 && StrCmp(password, AdminPassword) == 0
  }

  // ---------------------------------------------------------------- members

  datatype DeleteOutcome = NoMembers | MemberNotFound | MemberDeleted

  /** The delete choice of admin_manage_members: nothing on an empty store,
      nothing for an unknown username, and otherwise the first member with
      that username is removed and the later ones move down one slot. */
  method DeleteMemberByUsername(members: Store<Members.Member>, username: string) returns (outcome: DeleteOutcome)
    requires Members.IsMemberStore(members)
    modifies members, members.items
    ensures Members.IsMemberStore(members)
    ensures var s := old(members.Contents());
      && (outcome == NoMembers <==> |s| == 0)
      && (outcome == MemberNotFound <==> |s| > 0 && IndexOf(Members.Username, s, username) == -1)
      && (outcome == MemberDeleted <==> IndexOf(Members.Username, s, username) >= 0)
      && (outcome != MemberDeleted ==> members.Contents() == s)
      && (outcome == MemberDeleted ==> members.Contents() == Without(s, IndexOf(Members.Username, s, username)))
    ensures DistinctKeys(Members.Username, old(members.Contents())) ==>
      && DistinctKeys(Members.Username, members.Contents())
      && Members.UsernameFree(members.Contents(), username)
      && forall m :: m in old(members.Contents()) && m.username != username ==> m in members.Contents()
  {
    if members.count == 0 {
      return NoMembers;
    }
    var index := members.FindFirst(Members.Username, username);
    if index == -1 {
      return MemberNotFound;
    }
    ghost var before := members.Contents();
    members.RemoveAt(index);
    if DistinctKeys(Members.Username, before) {
      WithoutKeepsDistinct(Members.Username, before, index);
      WithoutRemovesKey(Members.Username, before, username);
    }
    return MemberDeleted;
  }

  // ------------------------------------------------------------------ plans

  /** Add in admin_manage_plans: add_plan_interactive, then the plans file
      is rewritten whether or not a plan was added. */
  method AdminAddPlan(plans: Store<Plans.Plan>, name: string, price: int, description: string) returns (written: Option<string>)
    requires Plans.IsPlanStore(plans)
    modifies plans, plans.items
    ensures Plans.IsPlanStore(plans)
    ensures old(plans.count) >= Plans.MaxPlans ==> plans.Contents() == old(plans.Contents())
    ensures old(plans.count) < Plans.MaxPlans ==>
      plans.Contents() == old(plans.Contents()) + [Plans.CreatePlan(NextIdOf(Plans.PlanId, old(plans.Contents())), name, price, description)]
    ensures written == Some(Codec.FileText(Plans.EncodePlan, plans.Contents()))
  {
    var _ := Plans.AddPlan(plans, name, price, description);
    var text := Plans.SavePlans(plans);
    written := Some(text);
  }

  /** Modify in admin_manage_plans: tried only when some plan is stored,
      and the file is rewritten only when modify_plan returned 1. The guard
      changes nothing: on an empty store no plan has the id anyway. */
  method AdminModifyPlan(plans: Store<Plans.Plan>, id: int, name: string, price: int, description: string)
    returns (written: Option<string>)
    requires Plans.IsPlanStore(plans)
    modifies plans.items
    ensures Plans.IsPlanStore(plans)
    ensures var s := old(plans.Contents()); var i := IndexOf(Plans.PlanId, s, id);
      && (i < 0 ==> written.None? && plans.Contents() == s)
      && (i >= 0 ==> plans.Contents() == s[i := Plans.EditPlan(s[i], name, price, description)])
      && (i >= 0 ==> written == Some(Codec.FileText(Plans.EncodePlan, plans.Contents())))
  {
    written := None;
    if plans.count > 0 {
      var modified := Plans.ModifyPlan(plans, id, name, price, description);
      if modified {
        var text := Plans.SavePlans(plans);
        written := Some(text);
      }
    }
  }

  /** Delete in admin_manage_plans: tried only when some plan is stored,
      and the file is rewritten only when delete_plan returned 1. */
  method AdminDeletePlan(plans: Store<Plans.Plan>, id: int) returns (written: Option<string>)
    requires Plans.IsPlanStore(plans)
    modifies plans, plans.items
    ensures Plans.IsPlanStore(plans)
    ensures var s := old(plans.Contents()); var i := IndexOf(Plans.PlanId, s, id);
      && (i < 0 ==> written.None? && plans.Contents() == s)
      && (i >= 0 ==> plans.Contents() == Without(s, i))
      && (i >= 0 ==> written == Some(Codec.FileText(Plans.EncodePlan, plans.Contents())))
  {
    written := None;
    if plans.count > 0 {
      var deleted := Plans.DeletePlan(plans, id);
      if deleted {
        var text := Plans.SavePlans(plans);
        written := Some(text);
      }
    }
  }

  // -------------------------------------------------------------- equipment

  /** Add in admin_manage_equipment: add_equipment_interactive, then the
      equipment file is rewritten whether or not an item was added. */
  method AdminAddEquipment(equipment: Store<Equipment.Item>, name: string, quantity: int, description: string)
    returns (written: Option<string>)
    requires Equipment.IsEquipmentStore(equipment)
    modifies equipment, equipment.items
    ensures Equipment.IsEquipmentStore(equipment)
    ensures old(equipment.count) >= Equipment.MaxEquipment ==> equipment.Contents() == old(equipment.Contents())
    ensures old(equipment.count) < Equipment.MaxEquipment ==>
      equipment.Contents() == old(equipment.Contents())
        + [Equipment.CreateItem(NextIdOf(Equipment.ItemId, old(equipment.Contents())), name, description, quantity)]
    ensures written == Some(Codec.FileText(Equipment.EncodeItem, equipment.Contents()))
  {
    var _ := Equipment.AddEquipment(equipment, name, quantity, description);
    var text := Equipment.SaveEquipment(equipment);
    written := Some(text);
  }

  /** Modify in admin_manage_equipment: tried only when some item is
      stored, and the file is rewritten only when modify_equipment
      returned 1. */
  method AdminModifyEquipment(equipment: Store<Equipment.Item>, id: int, name: string, quantity: int, description: string)
    returns (written: Option<string>)
    requires Equipment.IsEquipmentStore(equipment)
    modifies equipment.items
    ensures Equipment.IsEquipmentStore(equipment)
    ensures var s := old(equipment.Contents()); var i := IndexOf(Equipment.ItemId, s, id);
      && (i < 0 ==> written.None? && equipment.Contents() == s)
      && (i >= 0 ==> equipment.Contents() == s[i := Equipment.EditItem(s[i], name, quantity, description)])
      && (i >= 0 ==> written == Some(Codec.FileText(Equipment.EncodeItem, equipment.Contents())))
  {
    written := None;
    if equipment.count > 0 {
      var modified := Equipment.ModifyEquipment(equipment, id, name, quantity, description);
      if modified {
        var text := Equipment.SaveEquipment(equipment);
        written := Some(text);
      }
    }
  }

  /** Delete in admin_manage_equipment: tried only when some item is
      stored, and the file is rewritten only when delete_equipment
      returned 1. */
  method AdminDeleteEquipment(equipment: Store<Equipment.Item>, id: int) returns (written: Option<string>)
    requires Equipment.IsEquipmentStore(equipment)
    modifies equipment, equipment.items
    ensures Equipment.IsEquipmentStore(equipment)
    ensures var s := old(equipment.Contents()); var i := IndexOf(Equipment.ItemId, s, id);
      && (i < 0 ==> written.None? && equipment.Contents() == s)
      && (i >= 0 ==> equipment.Contents() == Without(s, i))
      && (i >= 0 ==> written == Some(Codec.FileText(Equipment.EncodeItem, equipment.Contents())))
  {
    written := None;
    if equipment.count > 0 {
      var deleted := Equipment.DeleteEquipment(equipment, id);
      if deleted {
        var text := Equipment.SaveEquipment(equipment);
        written := Some(text);
      }
    }
  }
}
