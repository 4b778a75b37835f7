# nss_wrapper conformance suite: model of the checking logic

This project models the logic of the nss_wrapper test suite (`tests/testsuite.c`) in Dafny. The suite checks that a passwd/group identity service shows the same data through its three access paths: sequential enumeration (`setpwent`/`getpwent`/`endpwent` and the group equivalents), lookup by name, and lookup by numeric id. It also carries a duplicate-name detector and a group-membership cross-check. Both are compiled out (`#if 0`) but are fully visible, and they are modelled as written.

The identity service itself is foreign code. Its database is an abstract sequence of records. Its lookups are function parameters returning `Option`. Its enumeration position is an explicit cursor.

Modules:

- `Wrappers`: `Option`.
- `Records`: the `Passwd` and `Group` records, the two equality assertions and the two deep copies.
- `Lookup`: the lookup wrappers, which copy whatever the service returns. One generic wrapper per record kind covers both keys.
- `Enumeration`: the cursor state machine (closed, or open at a position) and the enumeration loop that builds a snapshot.
- `Equivalence`: the passwd and group equivalence checks. Each check stops at the first failed assertion, as cmocka's assertions do, and reports the position and which of the five assertions failed.
- `Duplicates`: the nested-loop duplicate-name counter and the two duplicate checks.
- `Membership`: `user_in_group`, the expected-group-count computation and the per-user membership check.

Behaviours of the code that the model keeps as written:

- The group comparison compares member lists only up to the shorter one. So a list passes against any extension of it, a present but empty list passes against every present list, and the relation is not transitive.
- The duplicate counter counts ordered pairs, so one repeated name gives 2, not 1. It looks only at names, never at uids or gids.
- The membership check decides whether the primary group lists the user from the gid of the group as returned by a fresh lookup by name, not from the snapshot entry.
- Failures abort the check at the first failed assertion instead of being accumulated.
- `copy_group` turns a present but empty member list into an absent one. A copy therefore compares unequal to a source with an empty list, though two copies always compare equal.

## Model

| member | source | states |
|---|---|---|
| `Records.PasswdEqual` | tests/testsuite.c:22-32 | the seven field assertions pass exactly when the two records are the same value |
| `Records.PasswdEqualIsEquivalence` | tests/testsuite.c:22-32 | passwd equality is reflexive, symmetric and transitive |
| `Records.CopyPasswd` | tests/testsuite.c:52-63 | the copy compares equal to its source |
| `Records.MembersMatch` | tests/testsuite.c:47-49 | the lockstep member loop passes exactly when one list is a prefix of the other |
| `Records.GroupEqual` | tests/testsuite.c:34-50 | the group assertions pass exactly when name, password and gid agree, the member lists are both absent or both present, and a present list is a prefix of the other |
| `Records.GroupEqualReflexiveSymmetric` | tests/testsuite.c:34-50 | group equality is reflexive and symmetric |
| `Records.GroupEqualAcceptsPrefix` | tests/testsuite.c:44-49 | a group compares equal, both ways, to the same group with extra members appended |
| `Records.GroupEqualNotTransitive` | tests/testsuite.c:34-50 | group equality is not transitive (witness: lists `[alice]`, `[]`, `[bob]`) |
| `Records.GroupEqualOnNormalised` | tests/testsuite.c:34-50 | for groups without a present-but-empty list, equality means same name, password and gid, both lists empty or both non-empty, and one list a prefix of the other |
| `Records.GroupEqualOfCopies` | tests/testsuite.c:34-50 | comparing two copies is comparing their sources by that prefix relation |
| `Records.CopyGroup` | tests/testsuite.c:172-189 | the copy keeps name, password, gid and the members in order, and never holds a present but empty list |
| `Records.CopyIsUnique` | tests/testsuite.c:172-189 | those properties determine the copy: any two copies of a group are the same value |
| `Records.CopyGroupIdempotent` | tests/testsuite.c:172-189 | copying a copy changes nothing |
| `Records.CopyGroupEqualToSource` | tests/testsuite.c:180-186 | a copy compares equal to its source exactly when the source does not have a present but empty member list |
| `Lookup.GetPasswd` | tests/testsuite.c:77-93 | the copying passwd lookup (by name here, and by uid at lines 124-141) returns exactly what the service returned, found or not |
| `Lookup.GetGroup` | tests/testsuite.c:210-227 | the copying group lookup (by name here, and by gid at lines 258-275) finds a group exactly when the service does, and then returns a copy of it |
| `Enumeration.Enumerate` | tests/testsuite.c:315-330 | the snapshot holds a copy of every record the cursor returns before end of data, in order; nothing when the caller did not ask for it; the count is its length; the cursor is closed afterwards |
| `Enumeration.EnumPasswd` | tests/testsuite.c:306-340 | the passwd snapshot is the database itself, the count its length, and the cursor closed |
| `Enumeration.EnumGroup` | tests/testsuite.c:472-505 | the group snapshot holds a copy of each database group, in order, and the cursor is closed |
| `Equivalence.PasswdStep` | tests/testsuite.c:396-403 | the per-user assertions pass exactly when lookup by name and lookup by uid both return that very record; the third, name-vs-uid assertion can never be the first to fail |
| `Equivalence.CheckPasswd` | tests/testsuite.c:389-406 | the check passes exactly when every enumerated user comes back unchanged from both lookups (vacuously for an empty database); a failure names the first failing position and its step |
| `Equivalence.GroupStep` | tests/testsuite.c:561-569 | the per-group assertions pass exactly when both lookups find the group and the enumerated group and both results agree pairwise under the prefix relation |
| `Equivalence.CheckGroup` | tests/testsuite.c:554-572 | the check passes exactly when every enumerated group round-trips that way; a failure names the first failing position and its step |
| `Equivalence.ExactLookupsRoundTrip` | tests/testsuite.c:561-569 | a service returning exactly the enumerated group satisfies the group assertions |
| `Equivalence.GroupNameIdMismatchReachable` | tests/testsuite.c:568 | a group can pass both comparisons with the enumerated entry and still fail the name-vs-gid comparison |
| `Duplicates.CountDuplicates` | tests/testsuite.c:844-860 | the nested scan counts the ordered pairs of distinct positions with equal names; that is twice the unordered pairs, and zero exactly when the names are pairwise distinct |
| `Duplicates.DuplicatePairsTwiceCollisions` | tests/testsuite.c:844-860 | the ordered-pair count is twice the unordered-pair count, so always even |
| `Duplicates.DuplicatePairsZeroIffDistinct` | tests/testsuite.c:862-864 | the count is zero exactly when no two positions share a name |
| `Duplicates.CheckPasswdDuplicates` | tests/testsuite.c:834-867 | the passwd check fails exactly when two users share a name; uids are not looked at |
| `Duplicates.CheckGroupDuplicates` | tests/testsuite.c:869-902 | the group check fails exactly when two groups share a name; gids are not looked at |
| `Duplicates.TwoGroupsNamedAlike` | tests/testsuite.c:879-894 | two groups with one name, whatever their gids, give a count of 2 |
| `Membership.Listed` | tests/testsuite.c:680-684 | the member scan succeeds exactly when the name occurs in the list |
| `Membership.UserInGroup` | tests/testsuite.c:674-687 | a user is in a group exactly when the group's member list names them; an absent list names nobody |
| `Membership.MemberCount` | tests/testsuite.c:715-736 | the number of snapshot entries listing the user is at most the snapshot length, and zero exactly when no entry lists the user |
| `Membership.ExpectedGroupCount` | tests/testsuite.c:738-740 | the expected count is at least 1 and at most one more than the number of groups, and at most the number of groups when the primary group lists the user |
| `Membership.FindMissingGid` | tests/testsuite.c:709-712 | reports a reported gid that has no group record, or nothing when every reported gid resolves |
| `Membership.ScanGroups` | tests/testsuite.c:715-736 | when every group listing the user resolves by name, the scan returns the explicit-membership count and whether the primary group lists the user; otherwise it names a group that does not resolve |
| `Membership.CheckMembershipUser` | tests/testsuite.c:691-746 | the check passes exactly when the group-list call succeeds, every reported gid resolves, every group listing the user resolves by name, and the reported list's length equals the expected count; a count mismatch reports both numbers |
| `Membership.PrimaryListedByGid` | tests/testsuite.c:724-732 | when lookup by name preserves gids, the primary group lists the user exactly when some group with the user's primary gid lists them |
| `Membership.PrimaryGroupCountedOnce` | tests/testsuite.c:727-740 | in a database with alice and bob (primary gid 100) and group 100 listing only alice, both users expect exactly one group |

## Left out

- The C library calls (`getpwnam`, `getpwuid`, `getgrnam`, `getgrgid`, `setpwent`/`getpwent`/`endpwent`, `setgrent`/`getgrent`/`endgrent`) are foreign code. Lookups are function parameters returning `Option`. The enumerated database is an abstract sequence behind the cursor.
- The reentrant `_r` variants (tests/testsuite.c:95-121, 143-169, 229-303, 342-387, 408-433, 507-552, 574-599) have the same logic as the plain ones, so they are modelled once. They take a 4096-byte buffer and turn a non-zero return into "not found".
- The cross checks (tests/testsuite.c:435-470, 601-636) run the same per-record assertions once with the reentrant lookups and once with the plain ones. They are not modelled separately.
- The two-call buffer-sizing protocol of `getgrouplist` (tests/testsuite.c:638-672) is a foreign-API memory exchange. Its outcome is a parameter: the reported gid list, or None when the call failed.
- The driver loops and the environment gate are left out: `test_nwrap_membership` (tests/testsuite.c:748-776), `test_nwrap_enumeration` (779-791), the reentrant drivers (793-832), `test_nwrap_duplicates` (905-921), the suite registration and `main` (923-947). They are process plumbing around the checks modelled here.
- `print_passwd`, `print_group` and the `DEBUG` and warning output are debug I/O only.
- C memory handling is left out: `strdup`, `realloc` and `free`. This includes the undersized `realloc(g->gr_mem, i + 2)` in `copy_group` and the `assert_non_null` on a failed `realloc`. Copies are values.
- The copying lookup wrappers dereference NULL when the service finds nothing. The model instead reports that case as a failed check (`NameNotFound`, `IdNotFound`, `MemberGroupMissing`).
- Names are compared by exact string equality. The comparison function `strequal` is not defined in tests/testsuite.c; Samba's function of that name ignores case, so a service with both `Alice` and `alice` would be counted as a duplicate there and is not counted here.
- The `int` counters of the duplicate and membership checks are unbounded naturals. Test-sized databases cannot overflow them.
- C strings cannot contain a NUL character. The model does not exclude NUL from names and member entries.
- There is no concurrency in this code.
