/**
 * The enumeration-equivalence checks: every enumerated record must come back,
 * equal to itself, from the lookup by name and from the lookup by id, and the
 * two lookup results must equal each other. The assertions abort the check at
 * the first one that fails.
 */
module Equivalence {
  import opened Wrappers
  import opened Records
  import opened Lookup
  import opened Enumeration

  /** Which of the five per-record assertions failed first. */
  datatype Step =
    | NameNotFound     // the lookup by name returned nothing
    | NameMismatch     // enumerated record vs lookup by name
    | IdNotFound       // the lookup by id returned nothing
    | IdMismatch       // enumerated record vs lookup by id
    | NameIdMismatch   // lookup by name vs lookup by id

  datatype Verdict = Pass | Fail(at: nat, step: Step)

  // ---------------------------------------------------------------------------
  // passwd
  // ---------------------------------------------------------------------------

  /** The per-record body of the passwd check; None when all five assertions hold. */
  function PasswdStep(p: Passwd, byName: string -> Option<Passwd>, byUid: Id -> Option<Passwd>)
    : (r: Option<Step>)
    ensures r == None <==> byName(p.name) == Some(p) && byUid(p.uid) == Some(p)
    ensures r != Some(NameIdMismatch)
  {
    match GetPasswd(byName, p.name)
    case None => Some(NameNotFound)
    case Some(p1) =>
      if !PasswdEqual(p, p1) then Some(NameMismatch)
      else
        match GetPasswd(byUid, p.uid)
        case None => Some(IdNotFound)
        case Some(p2) =>
          if !PasswdEqual(p, p2) then Some(IdMismatch)
          else if !PasswdEqual(p1, p2) then Some(NameIdMismatch)
          else None
  }

  /**
   * The passwd equivalence check: enumerate, then run the per-record
   * assertions on every snapshot entry in order.
   */
  method CheckPasswd(db: seq<Passwd>, byName: string -> Option<Passwd>, byUid: Id -> Option<Passwd>)
    returns (v: Verdict)
    ensures v.Pass? <==>
      forall i :: 0 <= i < |db| ==> byName(db[i].name) == Some(db[i]) && byUid(db[i].uid) == Some(db[i])
    ensures v.Fail? ==>
      && v.at < |db|
      && PasswdStep(db[v.at], byName, byUid) == Some(v.step)
      && v.step != NameIdMismatch
      && forall j :: 0 <= j < v.at ==> byName(db[j].name) == Some(db[j]) && byUid(db[j].uid) == Some(db[j])
  {
    var snap, num, _ := EnumPasswd(db, true);
    var i := 0;
    while i < num
      invariant i <= num == |db|
      invariant forall j :: 0 <= j < i ==> PasswdStep(db[j], byName, byUid) == None
    {
      var s := PasswdStep(snap[i], byName, byUid);
      if s.Some? {
        return Fail(i, s.value);
      }
      i := i + 1;
    }
    return Pass;
  }

  // ---------------------------------------------------------------------------
  // group
  // ---------------------------------------------------------------------------

  /** The per-record body of the group check; None when all five assertions hold. */
  function GroupStep(g: Group, byName: string -> Option<Group>, byGid: Id -> Option<Group>)
    : (r: Option<Step>)
    requires Normalised(g)
    ensures r == None <==> GroupRoundTrips(g, byName, byGid)
  {
    match GetGroup(byName, g.name)
    case None => Some(NameNotFound)
    case Some(g1) =>
      GroupEqualOfCopies(g, g, g1, byName(g.name).value);
      if !GroupEqual(g, g1) then Some(NameMismatch)
      else
        match GetGroup(byGid, g.gid)
        case None => Some(IdNotFound)
        case Some(g2) =>
          GroupEqualOfCopies(g, g, g2, byGid(g.gid).value);
          GroupEqualOfCopies(g1, byName(g.name).value, g2, byGid(g.gid).value);
          if !GroupEqual(g, g2) then Some(IdMismatch)
          else if !GroupEqual(g1, g2) then Some(NameIdMismatch)
          else None
  }

  /**
   * What the group check demands of one group, stated through Agree instead
   * of the comparison loop: both lookups find it, and the enumerated group
   * and the two lookup results agree pairwise.
   */
  predicate GroupRoundTrips(g: Group, byName: string -> Option<Group>, byGid: Id -> Option<Group>)
  {
    && byName(g.name).Some?
    && byGid(g.gid).Some?
    && Agree(g, byName(g.name).value)
    && Agree(g, byGid(g.gid).value)
    && Agree(byName(g.name).value, byGid(g.gid).value)
  }

  /**
   * The group equivalence check: enumerate (each snapshot entry is a copy),
   * then run the per-record assertions on every entry in order.
   */
  method CheckGroup(db: seq<Group>, byName: string -> Option<Group>, byGid: Id -> Option<Group>)
    returns (v: Verdict)
    ensures v.Pass? <==> forall i :: 0 <= i < |db| ==> GroupRoundTrips(db[i], byName, byGid)
    ensures v.Fail? ==>
      && v.at < |db|
      && GroupStep(CopyGroup(db[v.at]), byName, byGid) == Some(v.step)
      && forall j :: 0 <= j < v.at ==> GroupRoundTrips(db[j], byName, byGid)
  {
    var snap, num, _ := EnumGroup(db, true);
    var i := 0;
    while i < num
      invariant i <= num == |db|
      invariant forall j :: 0 <= j < i ==> GroupRoundTrips(db[j], byName, byGid)
    {
      var s := GroupStep(snap[i], byName, byGid);
      if s.Some? {
        RoundTripsThroughCopy(db[i], byName, byGid);
        return Fail(i, s.value);
      }
      RoundTripsThroughCopy(db[i], byName, byGid);
      i := i + 1;
    }
    return Pass;
  }

  /** Agree looks only at names, ids and member lists, which a copy keeps. */
  lemma RoundTripsThroughCopy(g: Group, byName: string -> Option<Group>, byGid: Id -> Option<Group>)
    ensures GroupRoundTrips(CopyGroup(g), byName, byGid) <==> GroupRoundTrips(g, byName, byGid)
  {}

  /** A group service that returns exactly the enumerated groups passes the check. */
  lemma ExactLookupsRoundTrip(g: Group, byName: string -> Option<Group>, byGid: Id -> Option<Group>)
    requires byName(g.name) == Some(g) && byGid(g.gid) == Some(g)
    ensures GroupRoundTrips(g, byName, byGid)
  {}

  /**
   * Unlike the passwd check, the group check can get past both comparisons
   * with the enumerated group and still fail the third: two lookup results
   * that extend the enumerated member list in different ways.
   */
  lemma GroupNameIdMismatchReachable()
    ensures exists g: Group, byName: string -> Option<Group>, byGid: Id -> Option<Group> ::
      Normalised(g) && GroupStep(g, byName, byGid) == Some(NameIdMismatch)
  {
    var g := Group("staff", "x", 100, Some(["alice"]));
    var n := g.(members := Some(["alice", "bob"]));
    var d := g.(members := Some(["alice", "carol"]));
    var byName: string -> Option<Group> := _ => Some(n);
    var byGid: Id -> Option<Group> := _ => Some(d);
    assert MembersMatch(["alice"], ["alice", "bob"]);
    assert MembersMatch(["alice"], ["alice", "carol"]);
    assert !MembersMatch(["alice", "bob"], ["alice", "carol"]);
    assert GroupStep(g, byName, byGid) == Some(NameIdMismatch);
  }

}
