/**
 * The duplicate-name detector: a nested scan over the snapshot that counts
 * every ORDERED pair of distinct positions whose names are equal, and fails
 * when the count is not zero. Ids are not examined.
 */
module Duplicates {
  import opened Records
  import opened Enumeration

  // ---------------------------------------------------------------------------
  // Counting ordered pairs
  // ---------------------------------------------------------------------------

  /** The number of positions d < k, other than i, whose key equals s[i]. */
  function Matches<K(==)>(s: seq<K>, i: nat, k: nat): nat
    requires i < |s| && k <= |s|
  {
    if k == 0 then 0
    else Matches(s, i, k - 1) + (if k - 1 != i && s[k - 1] == s[i] then 1 else 0)
  }

  /** The number of ordered pairs (i, d) with i < k, d anywhere, i != d and equal keys. */
  function RowSum<K(==)>(s: seq<K>, k: nat): nat
    requires k <= |s|
  {
    if k == 0 then 0 else RowSum(s, k - 1) + Matches(s, k - 1, |s|)
  }

  /** The number of ordered pairs of distinct positions holding equal keys. */
  function DuplicatePairs<K(==)>(s: seq<K>): nat
  {
    RowSum(s, |s|)
  }

  /** The number of positions d < k with s[d] == x. */
  function Occurrences<K(==)>(s: seq<K>, x: K, k: nat): nat
    requires k <= |s|
  {
    if k == 0 then 0 else Occurrences(s, x, k - 1) + (if s[k - 1] == x then 1 else 0)
  }

  /** The number of UNORDERED pairs of distinct positions holding equal keys. */
  function Collisions<K(==)>(s: seq<K>): nat
  {
    if |s| == 0 then 0
    else
      var p := s[..|s| - 1];
      Collisions(p) + Occurrences(p, s[|s| - 1], |p|)
  }

  predicate Distinct<K(==)>(s: seq<K>)
  {
    forall i, j :: 0 <= i < j < |s| ==> s[i] != s[j]
  }

  // ---------------------------------------------------------------------------
  // Appending one key
  // ---------------------------------------------------------------------------

  lemma {:induction false} MatchesOfPrefix<K>(s: seq<K>, x: K, i: nat, k: nat)
    requires i < |s| && k <= |s|
    ensures Matches(s + [x], i, k) == Matches(s, i, k)
  {
    if k > 0 {
      MatchesOfPrefix(s, x, i, k - 1);
    }
  }

  lemma {:induction false} MatchesOfLast<K>(s: seq<K>, x: K, k: nat)
    requires k <= |s|
    ensures Matches(s + [x], |s|, k) == Occurrences(s, x, k)
  {
    if k > 0 {
      MatchesOfLast(s, x, k - 1);
    }
  }

  lemma {:induction false} RowSumAppend<K>(s: seq<K>, x: K, k: nat)
    requires k <= |s|
    ensures RowSum(s + [x], k) == RowSum(s, k) + Occurrences(s, x, k)
  {
    if k > 0 {
      RowSumAppend(s, x, k - 1);
      var t := s + [x];
      MatchesOfPrefix(s, x, k - 1, |s|);
      assert Matches(t, k - 1, |t|) == Matches(s, k - 1, |s|) + (if s[k - 1] == x then 1 else 0);
    }
  }

  /** Appending x adds the pairs (x, earlier copy) and (earlier copy, x). */
  lemma DuplicatePairsAppend<K>(s: seq<K>, x: K)
    ensures DuplicatePairs(s + [x]) == DuplicatePairs(s) + 2 * Occurrences(s, x, |s|)
  {
    var t := s + [x];
    RowSumAppend(s, x, |s|);
    MatchesOfLast(s, x, |s|);
    assert Matches(t, |s|, |t|) == Matches(t, |s|, |s|);
  }

  lemma {:induction false} OccurrencesZero<K>(s: seq<K>, x: K, k: nat)
    requires k <= |s|
    ensures Occurrences(s, x, k) == 0 <==> forall d :: 0 <= d < k ==> s[d] != x
  {
    if k > 0 {
      OccurrencesZero(s, x, k - 1);
    }
  }

  // ---------------------------------------------------------------------------
  // Properties of the counter
  // ---------------------------------------------------------------------------

  /** The ordered count is twice the unordered count, so it is always even. */
  lemma {:induction false} DuplicatePairsTwiceCollisions<K>(s: seq<K>)
    ensures DuplicatePairs(s) == 2 * Collisions(s)
    ensures DuplicatePairs(s) % 2 == 0
  {
    if |s| > 0 {
      var p := s[..|s| - 1];
      assert s == p + [s[|s| - 1]];
      DuplicatePairsTwiceCollisions(p);
      DuplicatePairsAppend(p, s[|s| - 1]);
    }
  }

  /** The count is zero exactly when the keys are pairwise distinct. */
  lemma {:induction false} DuplicatePairsZeroIffDistinct<K>(s: seq<K>)
    ensures DuplicatePairs(s) == 0 <==> Distinct(s)
  {
    if |s| > 0 {
      var p := s[..|s| - 1];
      var x := s[|s| - 1];
      assert s == p + [x];
      DuplicatePairsZeroIffDistinct(p);
      DuplicatePairsAppend(p, x);
      OccurrencesZero(p, x, |p|);
      if Distinct(s) {
        assert Distinct(p);
      }
      if Distinct(p) && Occurrences(p, x, |p|) == 0 {
        forall i, j | 0 <= i < j < |s|
          ensures s[i] != s[j]
        {
          if j < |p| {
            assert s[i] == p[i] && s[j] == p[j];
          } else {
            assert s[i] == p[i] && s[j] == x;
          }
        }
      }
    }
  }

  // ---------------------------------------------------------------------------
  // The scan
  // ---------------------------------------------------------------------------

  /** The nested loop: for every i, for every d other than i, count equal keys. */
  method CountDuplicates<K(==)>(keys: seq<K>) returns (duplicates: nat)
    ensures duplicates == DuplicatePairs(keys)
    ensures duplicates == 2 * Collisions(keys)
    ensures duplicates == 0 <==> Distinct(keys)
  {
    duplicates := 0;
    var i := 0;
    while i < |keys|
      invariant i <= |keys|
      invariant duplicates == RowSum(keys, i)
    {
      var d := 0;
      while d < |keys|
        invariant d <= |keys|
        invariant duplicates == RowSum(keys, i) + Matches(keys, i, d)
      {
        if d != i && keys[d] == keys[i] {
          duplicates := duplicates + 1;
        }
        d := d + 1;
      }
      i := i + 1;
    }
    DuplicatePairsTwiceCollisions(keys);
    DuplicatePairsZeroIffDistinct(keys);
  }

  /** The name of every snapshot entry, in order. */
  function Names<R>(s: seq<R>, name: R -> string): (names: seq<string>)
    ensures |names| == |s| && forall i :: 0 <= i < |s| ==> names[i] == name(s[i])
  {
    seq(|s|, i requires 0 <= i < |s| => name(s[i]))
  }

  /** The passwd duplicate check: enumerate, count, fail on a non-zero count. */
  method CheckPasswdDuplicates(db: seq<Passwd>) returns (duplicates: nat, ok: bool)
    ensures ok <==> duplicates == 0
    ensures ok <==> forall i, j :: 0 <= i < j < |db| ==> db[i].name != db[j].name
    ensures duplicates == 2 * Collisions(Names(db, (p: Passwd) => p.name))
  {
    var snap, _, _ := EnumPasswd(db, true);
    duplicates := CountDuplicates(Names(snap, (p: Passwd) => p.name));
    ok := duplicates == 0;
  }

  /** The group duplicate check: enumerate, count, fail on a non-zero count. */
  method CheckGroupDuplicates(db: seq<Group>) returns (duplicates: nat, ok: bool)
    ensures ok <==> duplicates == 0
    ensures ok <==> forall i, j :: 0 <= i < j < |db| ==> db[i].name != db[j].name
    ensures duplicates == 2 * Collisions(Names(db, (g: Group) => g.name))
  {
    var snap, _, _ := EnumGroup(db, true);
    assert Names(snap, (g: Group) => g.name) == Names(db, (g: Group) => g.name);
    duplicates := CountDuplicates(Names(snap, (g: Group) => g.name));
    ok := duplicates == 0;
  }

  /** Two groups sharing a name, whatever their gids, count as two ordered pairs. */
  lemma TwoGroupsNamedAlike(g1: Group, g2: Group)
    requires g1.name == g2.name
    ensures DuplicatePairs(Names([g1, g2], (g: Group) => g.name)) == 2
  {
    var s := Names([g1, g2], (g: Group) => g.name);
    assert s == [g1.name, g2.name];
    assert Matches(s, 0, 1) == 0;
    assert Matches(s, 1, 1) == 1;
    assert RowSum(s, 1) == 1;
  }

}
