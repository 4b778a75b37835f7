/**
 * Sequential enumeration of the passwd and group databases. The database the
 * service enumerates is an abstract sequence of records; its implicit
 * enumeration position is a cursor with an explicit open/closed state.
 */
module Enumeration {
  import opened Wrappers
  import opened Records

  /** The service's enumeration position: closed, or open at an index. */
  datatype Cursor = Closed | Open(pos: nat)

  /** setpwent / setgrent: open the cursor at the first record. */
  function SetEnt(): Cursor
  {
    Open(0)
  }

  /** endpwent / endgrent: close the cursor, from whatever state. */
  function EndEnt(c: Cursor): Cursor
  {
    Closed
  }

  /**
   * getpwent / getgrent: the record at the cursor, advancing it, or end of
   * data (None) once every record has been returned; further calls keep
   * returning end of data.
   */
  function GetEnt<R>(db: seq<R>, c: Cursor): (Option<R>, Cursor)
    requires c.Open? && c.pos <= |db|
  {
    if c.pos < |db| then (Some(db[c.pos]), Open(c.pos + 1)) else (None, c)
  }

  /**
   * The enumeration loop: open the cursor, read records until end of data,
   * append a copy of each to the snapshot when the caller asked for one
   * (`collect`: both out-pointers non-NULL), close the cursor.
   */
  method Enumerate<R>(db: seq<R>, copy: R -> R, collect: bool)
    returns (snap: seq<R>, count: nat, cursor: Cursor)
    ensures cursor == Closed
    ensures count == |snap|
    ensures collect ==> |snap| == |db| && forall i :: 0 <= i < |db| ==> snap[i] == copy(db[i])
    ensures !collect ==> snap == []
  {
    snap := [];
    cursor := SetEnt();
    while true
      invariant cursor.Open? && cursor.pos <= |db|
      invariant collect ==> |snap| == cursor.pos && forall i :: 0 <= i < |snap| ==> snap[i] == copy(db[i])
      invariant !collect ==> snap == []
      decreases |db| - cursor.pos
    {
      var (next, after) := GetEnt(db, cursor);
      if next.None? {
        break;
      }
      cursor := after;
      if collect {
        snap := snap + [copy(next.value)];
      }
    }
    count := |snap|;
    cursor := EndEnt(cursor);
  }

  /** The passwd enumeration: the snapshot is the database, record for record. */
  method EnumPasswd(db: seq<Passwd>, collect: bool)
    returns (snap: seq<Passwd>, count: nat, cursor: Cursor)
    ensures cursor == Closed
    ensures count == |snap|
    ensures collect ==> snap == db
    ensures !collect ==> snap == []
  {
    snap, count, cursor := Enumerate(db, CopyPasswd, collect);
  }

  /** The group enumeration: the snapshot holds a copy of every group, in order. */
  method EnumGroup(db: seq<Group>, collect: bool)
    returns (snap: seq<Group>, count: nat, cursor: Cursor)
    ensures cursor == Closed
    ensures count == |snap|
    ensures collect ==> |snap| == |db| && forall i :: 0 <= i < |db| ==> IsCopyOf(snap[i], db[i])
    ensures collect ==> forall i :: 0 <= i < |db| ==> snap[i] == CopyGroup(db[i])
    ensures !collect ==> snap == []
  {
    snap, count, cursor := Enumerate(db, CopyGroup, collect);
  }

}
