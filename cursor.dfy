/** The row cursor's arithmetic in the key handlers: a clamped step down
    (`j`), a step up that runs off the top into "no row" (`k` in Normal
    mode), and a step up that stops at the top row (`k` in Visual mode). */
module Cursor {
  import opened Items

  /** The cursor is either on no row or on one of the `num` rows. */
  predicate InRange(line: Option<nat>, num: nat)
  {
    line.Some? ==> line.value < num
  }

  /** `j`: one row down, staying on the last row at the bottom; from no row
      it lands on the first row of a non-empty list. The bound `num - 1` is
      computed in unsigned arithmetic, so a cursor on a row of an empty list
      is excluded. */
  function Down(line: Option<nat>, num: nat): (r: Option<nat>)
    requires line.Some? ==> num >= 1
    ensures InRange(line, num) ==> InRange(r, num)
    ensures r.None? <==> line.None? && num == 0
    ensures line.None? && r.Some? ==> r.value == 0
    ensures line.Some? ==> r.Some? && line.value <= r.value <= line.value + 1
    ensures line.Some? ==> (r == line <==> line.value + 1 >= num)
  {
    match line
    case Some(l) => if l < num - 1 then Some(l + 1) else line
    case None => if num > 0 then Some(0) else None
  }

  /** `k` in Normal mode: one row up; stepping up from the first row leaves
      no row focused. */
  function Up(line: Option<nat>): (r: Option<nat>)
    ensures r.None? <==> line.None? || line.value == 0
    ensures r.Some? ==> r.value + 1 == line.value
  {
    match line
    case Some(l) => if l > 0 then Some(l - 1) else None
    case None => None
  }

  /** `k` in Visual mode: one row up, but never off the first row. */
  function VisualUp(line: Option<nat>): (r: Option<nat>)
    ensures r.None? <==> line.None?
    ensures r == line <==> line.None? || line.value == 0
    ensures r.Some? ==> r.value <= line.value <= r.value + 1
  {
    match line
    case Some(l) => if l > 0 then Some(l - 1) else line
    case None => line
  }

  /** `k` never takes an in-range cursor out of range. */
  lemma UpKeepsInRange(line: Option<nat>, num: nat)
    requires InRange(line, num)
    ensures InRange(Up(line), num) && InRange(VisualUp(line), num)
  {
  }

  /** `k` then `j` comes back to the row it started on, including from the
      first row, where `k` leaves the rows and `j` re-enters at the top. */
  lemma UpThenDown(l: nat, num: nat)
    requires l < num
    ensures Down(Up(Some(l)), num) == Some(l)
  {
  }

  /** `j` then `k` comes back, unless `j` was stopped by the bottom. */
  lemma DownThenUp(l: nat, num: nat)
    requires l + 1 < num
    ensures Up(Down(Some(l), num)) == Some(l)
  {
  }
}
