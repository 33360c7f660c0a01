/** The cursor as a two-state machine over the cells of one leaf: a cell
    number and an end-of-table flag, moved by table_start and
    cursor_advance, and the scan that execute_select runs over it. */
module CursorSpec {

  /** Where a cursor stands. */
  datatype Position = Position(cellNum: int, endOfTable: bool)

  /** table_start on a root holding numCells cells. */
  function Start(numCells: int): (q: Position)
    ensures q.cellNum == 0
    ensures q.endOfTable <==> numCells == 0
  {
    Position(0, numCells == 0)
  }

  /** cursor_advance on a leaf holding numCells cells: one cell further, and
      at the end once the cell number reaches the count. The flag is only
      ever set, never cleared. */
  function Advance(p: Position, numCells: int): (q: Position)
    ensures q.cellNum == p.cellNum + 1
    ensures p.endOfTable ==> q.endOfTable
    ensures q.endOfTable <==> p.endOfTable || q.cellNum >= numCells
  {
    Position(p.cellNum + 1, p.endOfTable || p.cellNum + 1 >= numCells)
  }

  /** The position after k calls of cursor_advance. */
  function Steps(p: Position, numCells: int, k: nat): Position
  {
    if k == 0 then p else Advance(Steps(p, numCells, k - 1), numCells)
  }

  /** After k advances from the start the cursor is on cell k, and it is at
      the end exactly when k has reached the count. */
  lemma {:induction false} StepsFromStart(numCells: nat, k: nat)
    ensures Steps(Start(numCells), numCells, k) == Position(k, k >= numCells)
  {
    if k > 0 {
      StepsFromStart(numCells, k - 1);
    }
  }

  /** The cell numbers a select loop reads from position p on, for at most
      fuel rounds: it reads the current cell and advances until the end. */
  function Visited(p: Position, numCells: int, fuel: nat): seq<int>
    decreases fuel
  {
    if fuel == 0 || p.endOfTable then [] else [p.cellNum] + Visited(Advance(p, numCells), numCells, fuel - 1)
  }

  function Range(lo: int, hi: int): (r: seq<int>)
    requires lo <= hi
    ensures |r| == hi - lo && forall j :: 0 <= j < |r| ==> r[j] == lo + j
  {
    seq(hi - lo, j => lo + j)
  }

  lemma {:induction false} VisitedFrom(numCells: nat, k: nat)
    requires k <= numCells
    ensures Visited(Position(k, k >= numCells), numCells, numCells - k) == Range(k, numCells)
    decreases numCells - k
  {
    if k < numCells {
      VisitedFrom(numCells, k + 1);
      assert Advance(Position(k, false), numCells) == Position(k + 1, k + 1 >= numCells);
      assert Range(k, numCells) == [k] + Range(k + 1, numCells);
    }
  }

  /** A scan from table_start reads cells 0 to numCells - 1, each once and
      in slot order, and then stands at the end of the table. */
  lemma ScanVisitsInOrder(numCells: nat)
    ensures Visited(Start(numCells), numCells, numCells) == Range(0, numCells)
    ensures Steps(Start(numCells), numCells, numCells).endOfTable
  {
    VisitedFrom(numCells, 0);
    StepsFromStart(numCells, numCells);
  }

  /** The select loop as written: its body names cursor_advance without
      calling it, so a round leaves the position as it was. */
  function VisitedAsWritten(p: Position, fuel: nat): (r: seq<int>)
    ensures p.endOfTable ==> r == []
    ensures !p.endOfTable ==> |r| == fuel && forall j :: 0 <= j < |r| ==> r[j] == p.cellNum
  {
    if fuel == 0 || p.endOfTable then [] else [p.cellNum] + VisitedAsWritten(p, fuel - 1)
  }

  /** On a table with at least one row the loop as written reads cell 0 in
      every round, however many rounds it is given: it never ends. */
  lemma {:induction false} SelectAsWrittenNeverEnds(numCells: int, fuel: nat)
    requires numCells > 0
    ensures VisitedAsWritten(Start(numCells), fuel) == seq(fuel, _ => 0)
  {
    if fuel > 0 {
      SelectAsWrittenNeverEnds(numCells, fuel - 1);
    }
  }
}
