/**
 What the two speculative enqueues have in common: how callers, rows and keys are named,
 what a statement's snapshot can show of a key, and how often a statement is run again.
 */
module Speculation {

  type RowId = nat
  type CallId = nat
  type Key = string
  type JobClass = string

  /** The row that holds the key in a snapshot, if there is one. */
  datatype Seen = Nothing | Held(id: RowId, jobClass: JobClass)

  /** READ COMMITTED gives each statement its own snapshot; REPEATABLE READ reuses the first. */
  datatype Isolation = ReadCommitted | RepeatableRead

  const ATTEMPTS: nat := 5

  ghost predicate Increasing(ids: seq<RowId>) {
    forall i, j :: 0 <= i < j < |ids| ==> ids[i] < ids[j]
  }
}
