/**
 * The lookup wrappers. The C library calls behind them (getpwnam, getpwuid,
 * getgrnam, getgrgid) are parameters returning an Option, keyed by name or by
 * id; each wrapper reports whether the service found a record and hands back a
 * deep copy of it.
 */
module Lookup {
  import opened Wrappers
  import opened Records

  /** The passwd wrappers, by name and by uid. */
  function GetPasswd<K>(lookup: K -> Option<Passwd>, key: K): (r: Option<Passwd>)
    ensures r == lookup(key)
  {
    match lookup(key)
    case None => None
    case Some(p) => Some(CopyPasswd(p))
  }

  /** The group wrappers, by name and by gid. */
  function GetGroup<K>(lookup: K -> Option<Group>, key: K): (r: Option<Group>)
    ensures r.Some? <==> lookup(key).Some?
    ensures r.Some? ==> IsCopyOf(r.value, lookup(key).value)
  {
    match lookup(key)
    case None => None
    case Some(g) => Some(CopyGroup(g))
  }

}
