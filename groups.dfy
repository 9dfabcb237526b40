/**
  * The group table `group_members` (group name -> set of usernames) and what the
  * `/create_group`, `/join_group` and `/leave_group` handlers and the disconnect
  * cleanup do to it. Names are compared by exact string equality.
  */
module Groups {
  import opened Protocol

  type GroupTable = map<string, set<string>>

  /** The table after a group command, and the one reply the sender gets. */
  datatype Outcome = Outcome(groups: GroupTable, reply: string)

  /** No group disappears and no existing member set changes except possibly `name`'s. */
  predicate OnlyTouches(before: GroupTable, after: GroupTable, name: string) {
    before.Keys <= after.Keys && after.Keys <= before.Keys + {name}
    && forall g :: g in before && g != name ==> after[g] == before[g]
  }

  /**
    * `/create_group <name>`: the name is the raw text after the prefix. An empty name is
    * refused; a free name becomes a group whose only member is the creator; a taken one
    * is left as it is.
    */
  function Create(groups: GroupTable, user: string, name: string): (r: Outcome)
    ensures OnlyTouches(groups, r.groups, name)
    ensures r.reply == GroupCreated <==> name != "" && name !in groups
    ensures r.reply == GroupCreated ==> name in r.groups && r.groups[name] == {user}
    ensures r.reply != GroupCreated ==> r.groups == groups
    ensures r.reply in {GroupCreated, GroupExists, EmptyGroupName}
    ensures r.reply == EmptyGroupName <==> name == ""
  {
    if name == "" then Outcome(groups, EmptyGroupName)
    else if name !in groups then Outcome(groups[name := {user}], GroupCreated)
    else Outcome(groups, GroupExists)
  }

  /**
    * `/join_group <name>`: the user is added only to an existing group it is not yet in;
    * a missing group is not created.
    */
  function Join(groups: GroupTable, user: string, name: string): (r: Outcome)
    ensures OnlyTouches(groups, r.groups, name)
    ensures r.groups.Keys == groups.Keys
    ensures r.reply == JoinedGroup <==> name != "" && name in groups && user !in groups[name]
    ensures r.reply == JoinedGroup ==> r.groups[name] == groups[name] + {user}
    ensures r.reply != JoinedGroup ==> r.groups == groups
    ensures r.reply == EmptyGroupName <==> name == ""
    ensures r.reply == NoSuchGroup <==> name != "" && name !in groups
    ensures r.reply == AlreadyMember <==> name != "" && name in groups && user in groups[name]
  {
    if name == "" then Outcome(groups, EmptyGroupName)
    else if name in groups then
      if user in groups[name] then Outcome(groups, AlreadyMember)
      else Outcome(groups[name := groups[name] + {user}], JoinedGroup)
    else Outcome(groups, NoSuchGroup)
  }

  /**
    * `/leave_group <name>`: the user is removed only from an existing group it is in;
    * the group stays even when it becomes empty. Both failure cases share one reply.
    */
  function Leave(groups: GroupTable, user: string, name: string): (r: Outcome)
    ensures OnlyTouches(groups, r.groups, name)
    ensures r.groups.Keys == groups.Keys
    ensures r.reply == LeftGroup <==> name != "" && name in groups && user in groups[name]
    ensures r.reply == LeftGroup ==> r.groups[name] == groups[name] - {user}
    ensures r.reply != LeftGroup ==> r.groups == groups
    ensures r.reply == EmptyGroupName <==> name == ""
    ensures r.reply == LeaveFailed <==> name != "" && !(name in groups && user in groups[name])
  {
    if name == "" then Outcome(groups, EmptyGroupName)
    else if name in groups && user in groups[name] then
      Outcome(groups[name := groups[name] - {user}], LeftGroup)
    else Outcome(groups, LeaveFailed)
  }

  /**
    * The cleanup loop `for (auto &[name, members] : group_members) members.erase(user)`:
    * the user leaves every group, and no group is deleted.
    */
  method RemoveFromAllGroups(groups: GroupTable, user: string) returns (r: GroupTable)
    ensures r.Keys == groups.Keys
    ensures forall g :: g in r ==> r[g] == groups[g] - {user}
  {
    r := groups;
    var pending := groups.Keys;
    while pending != {}
      invariant pending <= groups.Keys
      invariant r.Keys == groups.Keys
      invariant forall g :: g in r ==> r[g] == if g in pending then groups[g] else groups[g] - {user}
      decreases pending
    {
      var g :| g in pending;
      r := r[g := groups[g] - {user}];
      pending := pending - {g};
    }
  }

  /** Right after creating a free name, the group's members are exactly the creator. */
  lemma CreateMakesSoleMember(groups: GroupTable, user: string, name: string)
    requires name != "" && name !in groups
    ensures var r := Create(groups, user, name);
      r.reply == GroupCreated && r.groups[name] == {user}
  {
  }

  /** Joining twice: the second join reports membership and changes nothing. */
  lemma JoinTwice(groups: GroupTable, user: string, name: string)
    requires name != "" && name in groups && user !in groups[name]
    ensures var once := Join(groups, user, name);
      var twice := Join(once.groups, user, name);
      once.reply == JoinedGroup && user in once.groups[name]
      && twice.reply == AlreadyMember && twice.groups == once.groups
  {
  }

  /** Leaving right after joining restores the table exactly. */
  lemma JoinThenLeave(groups: GroupTable, user: string, name: string)
    requires name != "" && name in groups && user !in groups[name]
    ensures var joined := Join(groups, user, name);
      var left := Leave(joined.groups, user, name);
      left.reply == LeftGroup && left.groups == groups
  {
    var joined := Join(groups, user, name);
    var left := Leave(joined.groups, user, name);
    assert groups[name] + {user} - {user} == groups[name];
    assert left.groups == groups[name := groups[name]];
  }

  /** A leave that fails (missing group or not a member) keeps the table as it was. */
  lemma LeaveFailureKeepsTable(groups: GroupTable, user: string, name: string)
    requires name != "" && !(name in groups && user in groups[name])
    ensures Leave(groups, user, name) == Outcome(groups, LeaveFailed)
  {
  }
}
