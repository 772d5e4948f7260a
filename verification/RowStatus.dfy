/** RowStatus (section 2 of RFC 2579) as the table-array helper applies it. The three activation
    callbacks of every table modelled here return 1, so only the status values decide. */
module RowStatus {

  const NONEXISTENT := 0
  const ACTIVE := 1
  const NOT_IN_SERVICE := 2
  const NOT_READY := 3
  const CREATE_AND_GO := 4
  const CREATE_AND_WAIT := 5
  const DESTROY := 6

  datatype Verdict = NoError | WrongValue | InconsistentValue

  /** The check made in the RESERVE2 phase on each value written to a status column. */
  function CheckTransition(oldValue: int, newValue: int): Verdict
  {
    if newValue == ACTIVE || newValue == NOT_IN_SERVICE then
      if oldValue == NOT_IN_SERVICE || oldValue == ACTIVE then NoError else InconsistentValue
    else if newValue == CREATE_AND_GO || newValue == CREATE_AND_WAIT then
      if oldValue != NONEXISTENT then InconsistentValue else NoError
    else if newValue == DESTROY then NoError
    else WrongValue
  }

  /** The status the ACTION phase stores after the column writes. */
  function Settle(status: int): (r: int)
    ensures r == ACTIVE || r == NOT_IN_SERVICE || r == DESTROY
    ensures r == ACTIVE <==> status == CREATE_AND_GO || status == ACTIVE
    ensures r == DESTROY <==> status == DESTROY
  {
    if status == CREATE_AND_GO || status == ACTIVE then ACTIVE
    else if status != DESTROY then NOT_IN_SERVICE
    else DESTROY
  }
}
