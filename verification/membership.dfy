/**
 * The membership cross-check for one user: the group list the service reports
 * for the user against a manual scan of the enumerated groups' member lists,
 * where the user's primary group counts once even when it does not list the
 * user.
 */
module Membership {
  import opened Wrappers
  import opened Records
  import opened Lookup

  /** The scan over a member list, stopping at the first entry equal to `name`. */
  function Listed(name: string, ms: seq<string>): (r: bool)
    ensures r <==> name in ms
  {
    |ms| > 0 && (ms[0] == name || Listed(name, ms[1..]))
  }

  /** Does the group's member list name the user? An absent list names nobody. */
  function UserInGroup(u: Passwd, g: Group): (r: bool)
    ensures r <==> u.name in Members(g)
    ensures g.members.None? ==> !r
  {
    g.members.Some? && Listed(u.name, g.members.value)
  }

  /** The number of groups (entries of the snapshot) that list the user. */
  function MemberCount(u: Passwd, groups: seq<Group>): (r: nat)
    ensures r <= |groups|
    ensures r == 0 <==> forall i :: 0 <= i < |groups| ==> !UserInGroup(u, groups[i])
  {
    if |groups| == 0 then 0
    else
      var p := groups[..|groups| - 1];
      assert forall i :: 0 <= i < |p| ==> p[i] == groups[i];
      MemberCount(u, p) + (if UserInGroup(u, groups[|groups| - 1]) then 1 else 0)
  }

  /**
   * A group that lists the user and whose record, looked up again by name,
   * carries the user's primary gid.
   */
  predicate PrimaryWitness(u: Passwd, g: Group, byName: string -> Option<Group>)
  {
    && UserInGroup(u, g)
    && byName(g.name).Some?
    && byName(g.name).value.gid == u.gid
  }

  predicate PrimaryListed(u: Passwd, groups: seq<Group>, byName: string -> Option<Group>)
  {
    exists i :: 0 <= i < |groups| && PrimaryWitness(u, groups[i], byName)
  }

  /** Explicit memberships, plus one for the primary group when it does not list the user. */
  function ExpectedGroupCount(u: Passwd, groups: seq<Group>, byName: string -> Option<Group>): (r: nat)
    ensures 1 <= r <= |groups| + 1
    ensures PrimaryListed(u, groups, byName) ==> r <= |groups|
  {
    MemberCount(u, groups) + (if PrimaryListed(u, groups, byName) then 0 else 1)
  }

  /** Every group that lists the user can be looked up again by its name. */
  predicate MemberGroupsFound(u: Passwd, groups: seq<Group>, byName: string -> Option<Group>)
  {
    forall i :: 0 <= i < |groups| && UserInGroup(u, groups[i]) ==> byName(groups[i].name).Some?
  }

  datatype MembershipVerdict =
    | Consistent
    | GroupListFailed                       // the group-list call reported an error
    | ListedGroupMissing(gid: Id)           // a reported gid has no group record
    | MemberGroupMissing(name: string)      // a group listing the user cannot be found by name
    | CountMismatch(listed: nat, expected: nat)

  /** The first gid of the reported list that has no group record, if any. */
  method FindMissingGid(gids: seq<Id>, byGid: Id -> Option<Group>) returns (missing: Option<Id>)
    ensures missing.None? <==> forall k :: 0 <= k < |gids| ==> byGid(gids[k]).Some?
    ensures missing.Some? ==> missing.value in gids && byGid(missing.value).None?
  {
    var g := 0;
    while g < |gids|
      invariant g <= |gids|
      invariant forall k :: 0 <= k < g ==> byGid(gids[k]).Some?
    {
      if GetGroup(byGid, gids[g]).None? {
        return Some(gids[g]);
      }
      g := g + 1;
    }
    return None;
  }

  /**
   * The scan over the snapshot: count the groups that list the user, look
   * each of them up again by name, and note whether one of those lookups
   * carries the user's primary gid. Stops at the first failed lookup.
   */
  method ScanGroups(u: Passwd, groups: seq<Group>, byName: string -> Option<Group>)
    returns (missing: Option<string>, fromEnum: nat, primaryHadUser: bool)
    ensures missing.None? <==> MemberGroupsFound(u, groups, byName)
    ensures missing.Some? ==> exists i :: 0 <= i < |groups| && UserInGroup(u, groups[i])
                                    && groups[i].name == missing.value && byName(missing.value).None?
    ensures missing.None? ==> fromEnum == MemberCount(u, groups)
    ensures missing.None? ==> (primaryHadUser <==> PrimaryListed(u, groups, byName))
  {
    fromEnum := 0;
    primaryHadUser := false;
    var i := 0;
    while i < |groups|
      invariant i <= |groups|
      invariant fromEnum == MemberCount(u, groups[..i])
      invariant MemberGroupsFound(u, groups[..i], byName)
      invariant primaryHadUser <==> PrimaryListed(u, groups[..i], byName)
    {
      CountStep(u, groups, i);
      FoundStep(u, groups, byName, i);
      PrimaryStep(u, groups, byName, i);
      if UserInGroup(u, groups[i]) {
        fromEnum := fromEnum + 1;
        var current := GetGroup(byName, groups[i].name);
        if current.None? {
          return Some(groups[i].name), fromEnum, primaryHadUser;
        }
        if current.value.gid == u.gid {
          primaryHadUser := true;
        }
      }
      i := i + 1;
    }
    assert groups[..i] == groups;
    return None, fromEnum, primaryHadUser;
  }

  /** How the three quantities of the scan change when one more group is taken in. */
  lemma CountStep(u: Passwd, groups: seq<Group>, i: nat)
    requires i < |groups|
    ensures MemberCount(u, groups[..i + 1]) ==
      MemberCount(u, groups[..i]) + (if UserInGroup(u, groups[i]) then 1 else 0)
  {
    var p := groups[..i + 1];
    assert p[..|p| - 1] == groups[..i];
  }

  lemma FoundStep(u: Passwd, groups: seq<Group>, byName: string -> Option<Group>, i: nat)
    requires i < |groups|
    ensures MemberGroupsFound(u, groups[..i + 1], byName) <==>
      MemberGroupsFound(u, groups[..i], byName) && (UserInGroup(u, groups[i]) ==> byName(groups[i].name).Some?)
  {
    var p, q := groups[..i + 1], groups[..i];
    assert forall j :: 0 <= j < |q| ==> p[j] == q[j];
    assert p[i] == groups[i];
  }

  lemma PrimaryStep(u: Passwd, groups: seq<Group>, byName: string -> Option<Group>, i: nat)
    requires i < |groups|
    ensures PrimaryListed(u, groups[..i + 1], byName) <==>
      PrimaryListed(u, groups[..i], byName) || PrimaryWitness(u, groups[i], byName)
  {
    var p, q := groups[..i + 1], groups[..i];
    assert forall j :: 0 <= j < |q| ==> p[j] == q[j];
    assert p[i] == groups[i];
  }

  /**
   * The check for one user. `groupList` is the result of the group-list call
   * for the user's name and primary gid (None when it failed); `groups` is the
   * group snapshot.
   */
  method CheckMembershipUser(
    u: Passwd,
    groups: seq<Group>,
    groupList: Option<seq<Id>>,
    byGid: Id -> Option<Group>,
    byName: string -> Option<Group>)
    returns (v: MembershipVerdict)
    ensures v == GroupListFailed <==> groupList.None?
    ensures v == Consistent <==>
      && groupList.Some?
      && (forall k :: 0 <= k < |groupList.value| ==> byGid(groupList.value[k]).Some?)
      && MemberGroupsFound(u, groups, byName)
      && |groupList.value| == ExpectedGroupCount(u, groups, byName)
    ensures v.ListedGroupMissing? ==>
      groupList.Some? && v.gid in groupList.value && byGid(v.gid).None?
    ensures v.MemberGroupMissing? ==>
      exists i :: 0 <= i < |groups| && UserInGroup(u, groups[i]) && groups[i].name == v.name && byName(v.name).None?
    ensures v.CountMismatch? ==>
      && groupList.Some?
      && v.listed == |groupList.value|
      && v.expected == ExpectedGroupCount(u, groups, byName)
      && v.listed != v.expected
  {
    if groupList.None? {
      return GroupListFailed;
    }
    var gids := groupList.value;
    var missingGid := FindMissingGid(gids, byGid);
    if missingGid.Some? {
      return ListedGroupMissing(missingGid.value);
    }
    var missingName, fromEnum, primaryHadUser := ScanGroups(u, groups, byName);
    if missingName.Some? {
      return MemberGroupMissing(missingName.value);
    }
    if !primaryHadUser {
      fromEnum := fromEnum + 1;
    }
    if |gids| != fromEnum {
      return CountMismatch(|gids|, fromEnum);
    }
    return Consistent;
  }

  /**
   * When looking a group up by name returns that group's own gid, the primary
   * group counts as listed exactly when some group with the user's primary
   * gid lists the user.
   */
  lemma PrimaryListedByGid(u: Passwd, groups: seq<Group>, byName: string -> Option<Group>)
    requires forall i :: 0 <= i < |groups| ==>
      byName(groups[i].name).Some? && byName(groups[i].name).value.gid == groups[i].gid
    ensures PrimaryListed(u, groups, byName) <==>
      exists i :: 0 <= i < |groups| && UserInGroup(u, groups[i]) && groups[i].gid == u.gid
  {}

  /**
   * Two users with primary gid 100 and one group 100 listing only alice: both
   * users expect exactly one group, alice through her explicit membership and
   * bob through the implicit primary membership.
   */
  lemma PrimaryGroupCountedOnce()
    ensures
      var staff := Group("staff", "x", 100, Some(["alice"]));
      var byName: string -> Option<Group> := n => if n == "staff" then Some(staff) else None;
      && ExpectedGroupCount(Passwd("alice", "x", 1000, 100, "", "/home/alice", "/bin/sh"), [staff], byName) == 1
      && ExpectedGroupCount(Passwd("bob", "x", 1001, 100, "", "/home/bob", "/bin/sh"), [staff], byName) == 1
  {}

}
