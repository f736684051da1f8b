/**
 The contract of session.Store (server/internal/session/store.go): data kept by ID until a
 TTL elapses. A table may still hold entries that have expired; the contract never lets a
 caller see them.
 */
module TtlTable {
  import opened Prelude

  datatype Entry<+D> = Entry(data: D, expiresAt: int)

  type Table<D> = map<string, Entry<D>>

  predicate Live<D>(t: Table<D>, id: string, now: int) {
    id in t && t[id].expiresAt > now
  }

  /** The table with every expired entry gone. */
  function Visible<D>(t: Table<D>, now: int): Table<D> {
    map id | id in t && t[id].expiresAt > now :: t[id]
  }

  /** Get and Delete take an empty ID for one that has no entry. */
  function Get<D>(t: Table<D>, id: string, now: int): Option<D> {
    if id != "" && Live(t, id, now) then Some(t[id].data) else None
  }

  /**
   Create: writes only when id has no live entry. The clock may move on between the check, at
   looked, and the write, at stamped.
   */
  function Create<D>(t: Table<D>, id: string, data: D, ttl: int, looked: int, stamped: int): (Table<D>, bool) {
    if Live(t, id, looked) then (t, false) else (t[id := Entry(data, stamped + ttl)], true)
  }

  /** Update: writes only when id has a live entry. */
  function Update<D>(t: Table<D>, id: string, data: D, ttl: int, looked: int, stamped: int): (Table<D>, bool) {
    if Live(t, id, looked) then (t[id := Entry(data, stamped + ttl)], true) else (t, false)
  }

  function Delete<D>(t: Table<D>, id: string): Table<D> {
    if id == "" then t else t - {id}
  }
}
