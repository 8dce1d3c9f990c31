/**
 What the transition tables of deliver.c and mperform.c are made of. FSM_runMachine takes the first
 row whose event matches and whose predicate, if any, holds; then it runs the row's action and moves
 to the row's state. Predicates may change the machine they look at.
 */
module Fsm {
  import opened Common

  /** The row event that matches every event. */
  const FSM_EVT_DEFAULT: nat := 0

  // The events of the mail transfer server, numbered from zero.
  const INVOKE_IND: nat := 0
  const RESULT_IND: nat := 1
  const RESULT_CON: nat := 2
  const ERROR_IND: nat := 3
  const ERROR_CON: nat := 4
  const FAILURE_IND: nat := 5
  const DELIVER_REQ: nat := 6
  const TIMER_EXPIRED: nat := 7

  /** A row names its predicate and its action; None is the NULL pointer. */
  datatype Row<+P, +A, +S> = Row(evtId: nat, pred: Option<P>, act: Option<A>, next: S)

  predicate EvtsMatch(rowEvt: nat, evt: nat) {
    rowEvt == FSM_EVT_DEFAULT || rowEvt == evt
  }
}
