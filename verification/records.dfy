/**
 * The two record kinds the suite compares, the field-wise equality assertions
 * it applies to them, and the deep copies it takes of every record it receives.
 */
module Records {
  import opened Wrappers

  /** uid_t and gid_t: 32-bit unsigned integers. */
  type Id = x: int | 0 <= x < 0x1_0000_0000

  /** struct passwd: seven fields. */
  datatype Passwd = Passwd(
    name: string,
    passwd: string,
    uid: Id,
    gid: Id,
    gecos: string,
    dir: string,
    shell: string)

  /**
   * struct group. `members` is the NULL-terminated gr_mem array: None when the
   * pointer is NULL, otherwise the entries before the terminating NULL.
   */
  datatype Group = Group(
    name: string,
    passwd: string,
    gid: Id,
    members: Option<seq<string>>)

  // ---------------------------------------------------------------------------
  // Passwd equality and copy
  // ---------------------------------------------------------------------------

  /** The seven field-by-field assertions of the passwd comparison. */
  function PasswdEqual(p1: Passwd, p2: Passwd): (r: bool)
    ensures r <==> p1 == p2
  {
    && p1.name == p2.name
    && p1.passwd == p2.passwd
    && p1.uid == p2.uid
    && p1.gid == p2.gid
    && p1.gecos == p2.gecos
    && p1.dir == p2.dir
    && p1.shell == p2.shell
  }

  lemma PasswdEqualIsEquivalence()
    ensures forall p :: PasswdEqual(p, p)
    ensures forall p, q :: PasswdEqual(p, q) ==> PasswdEqual(q, p)
    ensures forall p, q, s :: PasswdEqual(p, q) && PasswdEqual(q, s) ==> PasswdEqual(p, s)
  {}

  /** Duplicates every string field and copies both ids. */
  function CopyPasswd(p: Passwd): (c: Passwd)
    ensures PasswdEqual(c, p)
  {
    Passwd(p.name, p.passwd, p.uid, p.gid, p.gecos, p.dir, p.shell)
  }

  // ---------------------------------------------------------------------------
  // Group equality
  // ---------------------------------------------------------------------------

  /** Is one list a prefix of the other? */
  predicate Comparable(m1: seq<string>, m2: seq<string>)
  {
    m1 <= m2 || m2 <= m1
  }

  /**
   * The member loop of the group comparison: it walks both lists in lockstep
   * while BOTH still have an entry, so it stops at the end of the shorter one.
   */
  function MembersMatch(m1: seq<string>, m2: seq<string>): (r: bool)
    ensures r <==> Comparable(m1, m2)
  {
    if |m1| == 0 || |m2| == 0 then true
    else
      var r := m1[0] == m2[0] && MembersMatch(m1[1..], m2[1..]);
      assert m1 == [m1[0]] + m1[1..] && m2 == [m2[0]] + m2[1..];
      r
  }

  /**
   * The group comparison: name, password and gid must agree, the member
   * pointers must be both NULL or both non-NULL, and present lists are
   * compared only where both have an entry.
   */
  function GroupEqual(g1: Group, g2: Group): (r: bool)
    ensures r <==>
      && g1.name == g2.name
      && g1.passwd == g2.passwd
      && g1.gid == g2.gid
      && g1.members.Some? == g2.members.Some?
      && (g1.members.Some? ==> Comparable(g1.members.value, g2.members.value))
  {
    && g1.name == g2.name
    && g1.passwd == g2.passwd
    && g1.gid == g2.gid
    && match (g1.members, g2.members)
       case (None, None) => true
       case (Some(m1), Some(m2)) => MembersMatch(m1, m2)
       case _ => false
  }

  lemma GroupEqualReflexiveSymmetric()
    ensures forall g :: GroupEqual(g, g)
    ensures forall g, h :: GroupEqual(g, h) ==> GroupEqual(h, g)
  {}

  /** A shorter list and a longer one that starts with it compare equal. */
  lemma GroupEqualAcceptsPrefix(g: Group, m: seq<string>, extra: seq<string>)
    requires g.members == Some(m)
    ensures GroupEqual(g, g.(members := Some(m + extra)))
    ensures GroupEqual(g.(members := Some(m + extra)), g)
  {}

  /**
   * Because a present but empty list is a prefix of every list, the comparison
   * is not transitive.
   */
  lemma GroupEqualNotTransitive()
    ensures !(forall g1, g2, g3 :: GroupEqual(g1, g2) && GroupEqual(g2, g3) ==> GroupEqual(g1, g3))
  {
    var a := Group("g", "x", 10, Some(["alice"]));
    var b := Group("g", "x", 10, Some([]));
    var c := Group("g", "x", 10, Some(["bob"]));
    assert GroupEqual(a, b) && GroupEqual(b, c);
    assert !MembersMatch(["alice"], ["bob"]);
    assert !GroupEqual(a, c);
  }

  // ---------------------------------------------------------------------------
  // Group copy
  // ---------------------------------------------------------------------------

  /** The member names, reading an absent list as an empty one. */
  function Members(g: Group): seq<string>
  {
    if g.members.Some? then g.members.value else []
  }

  /** A copied group never carries a present but empty member list. */
  predicate Normalised(g: Group)
  {
    g.members != Some([])
  }

  /** What a copy of `g` must be: same scalars, same members in order, normalised. */
  predicate IsCopyOf(c: Group, g: Group)
  {
    && c.name == g.name
    && c.passwd == g.passwd
    && c.gid == g.gid
    && Members(c) == Members(g)
    && Normalised(c)
  }

  /**
   * The group copy: the member array starts out NULL and is only allocated
   * once a first member is seen, so an empty list comes back absent.
   */
  function CopyGroup(g: Group): (c: Group)
    ensures IsCopyOf(c, g)
  {
    var ms := Members(g);
    Group(g.name, g.passwd, g.gid, if |ms| == 0 then None else Some(ms))
  }

  /** IsCopyOf pins the copy down completely: two copies of a group are the same value. */
  lemma CopyIsUnique(g: Group, c1: Group, c2: Group)
    requires IsCopyOf(c1, g) && IsCopyOf(c2, g)
    ensures c1 == c2
  {}

  lemma CopyGroupIdempotent(g: Group)
    ensures CopyGroup(CopyGroup(g)) == CopyGroup(g)
  {}

  /**
   * A copy compares equal to its source except when the source has a present
   * but empty list: the copy's list is then absent, and the comparison refuses
   * one NULL and one non-NULL pointer.
   */
  lemma CopyGroupEqualToSource(g: Group)
    ensures GroupEqual(g, CopyGroup(g)) <==> g.members != Some([])
  {}

  // ---------------------------------------------------------------------------
  // Group equality on copies
  // ---------------------------------------------------------------------------

  /**
   * Independent statement of when two groups compare equal once both are
   * copies: same scalars, both member lists empty or both non-empty, and one
   * list a prefix of the other.
   */
  predicate Agree(g1: Group, g2: Group)
  {
    && g1.name == g2.name
    && g1.passwd == g2.passwd
    && g1.gid == g2.gid
    && (Members(g1) == [] <==> Members(g2) == [])
    && Comparable(Members(g1), Members(g2))
  }

  lemma GroupEqualOnNormalised(g1: Group, g2: Group)
    requires Normalised(g1) && Normalised(g2)
    ensures GroupEqual(g1, g2) <==> Agree(g1, g2)
  {}

  /** Comparing two copies means comparing their originals by Agree. */
  lemma GroupEqualOfCopies(c1: Group, g1: Group, c2: Group, g2: Group)
    requires IsCopyOf(c1, g1) && IsCopyOf(c2, g2)
    ensures GroupEqual(c1, c2) <==> Agree(g1, g2)
  {}

}
