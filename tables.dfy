/** The table over the pager, its cursors and the insert and select
    executors. The table is one leaf, the root at page 0. */
module Tables {
  import opened Bytes
  import opened RowCodec
  import opened NodeLayout
  import opened Leaf
  import opened CursorSpec
  import opened PageCache

  datatype ExecuteResult = ExecuteSuccess | ExecuteDuplicateKey | ExecuteTableFull

  class Table {
    const pager: Pager
    const rootPageNum: int

    /** The pager is consistent and the root can be read: it is resident or
        lies in the file. */
    ghost predicate Valid()
      reads this, pager, pager.pages
    {
      && pager.Valid() && rootPageNum == 0
      && (pager.pages[rootPageNum] != null || rootPageNum < pager.fileLength / PAGE_SIZE)
    }

    /** The root page as get_page would return it. */
    ghost function Root(): Page
      requires Valid()
      reads this, pager, pager.pages, pager.pages[0]
    {
      pager.Image(rootPageNum)
    }

    constructor (pager: Pager)
      ensures this.pager == pager && rootPageNum == 0
    {
      this.pager := pager;
      rootPageNum := 0;
    }
  }

  class Cursor {
    const table: Table
    const pageNum: int
    var cellNum: int
    var endOfTable: bool

    constructor (table: Table, pageNum: int, cellNum: int, endOfTable: bool)
      ensures this.table == table && this.pageNum == pageNum
      ensures this.cellNum == cellNum && this.endOfTable == endOfTable
    {
      this.table := table;
      this.pageNum := pageNum;
      this.cellNum := cellNum;
      this.endOfTable := endOfTable;
    }

    ghost function Pos(): Position
      reads this
    {
      Position(cellNum, endOfTable)
    }

    /** The cursor's page is resident in a consistent pager. */
    ghost predicate OnResidentPage()
      reads this, table, table.pager, table.pager.pages
    {
      && table.pager.Valid() && 0 <= pageNum < TABLE_MAX_PAGES
      && table.pager.pages[pageNum] != null
    }

    /** The bytes of the cursor's page. */
    ghost function Node(): Page
      requires OnResidentPage()
      reads this, table, table.pager, table.pager.pages, table.pager.pages[pageNum]
    {
      table.pager.pages[pageNum][..]
    }
  }

  /** db_open: the pager over the file, the root at page 0, and on an empty
      file page 0 initialised as an empty leaf. */
  method DbOpen(contents: seq<Byte>) returns (table: Table?)
    ensures table == null <==> |contents| % PAGE_SIZE != 0
    ensures table != null ==> fresh(table) && fresh(table.pager) && fresh(table.pager.pages)
    ensures table != null ==>
      forall i :: 0 <= i < table.pager.pages.Length && table.pager.pages[i] != null ==> fresh(table.pager.pages[i])
    ensures table != null ==> table.Valid() && table.pager.file == contents
    ensures table != null && |contents| == 0 ==>
      NodeType(table.Root()) == NODE_LEAF && LeafBounded(table.Root()) && Entries(table.Root()) == []
    ensures table != null && |contents| > 0 ==> table.pager.pages[0] == null && table.Root() == table.pager.FilePage(0)
  {
    var pager := PagerOpen(contents);
    if pager == null {
      return null;
    }
    table := new Table(pager);
    if pager.numPages == 0 {
      var rootNode := pager.GetPage(0);
      InitializeLeafNode(rootNode);
    }
  }

  /** leaf_node_find: a cursor on page pageNum at the slot the binary search
      returns. The source leaves end_of_table unset; here it is false. */
  method LeafNodeFind(table: Table, pageNum: int, key: int) returns (cursor: Cursor)
    requires table.pager.Valid() && 0 <= pageNum < TABLE_MAX_PAGES
    requires table.pager.pages[pageNum] != null || pageNum < table.pager.fileLength / PAGE_SIZE
    requires LeafBounded(table.pager.Image(pageNum))
    modifies table.pager, table.pager.pages
    ensures table.pager.Valid() && table.pager.LoadedOnly(pageNum)
    ensures old(table.pager.pages[pageNum]) != null ==> unchanged(table.pager, table.pager.pages)
    ensures fresh(cursor) && cursor.table == table && cursor.pageNum == pageNum
    ensures cursor.OnResidentPage() && cursor.Node() == old(table.pager.Image(pageNum))
    ensures 0 <= cursor.cellNum <= NumCells(cursor.Node())
    ensures StrictlyIncreasing(Keys(cursor.Node())) ==> cursor.cellNum == LowerBound(Keys(cursor.Node()), key)
    ensures StrictlyIncreasing(Keys(cursor.Node())) ==>
      (key in Keys(cursor.Node()) <==> cursor.cellNum < NumCells(cursor.Node()) && KeyAt(cursor.Node(), cursor.cellNum) == key)
  {
    var node := table.pager.GetPage(pageNum);
    var cellNum := Find(node, key);
    cursor := new Cursor(table, pageNum, cellNum, false);
  }

  /** table_start: a cursor on the root's first slot, at the end exactly
      when the root holds no cells. */
  method TableStart(table: Table) returns (cursor: Cursor)
    requires table.Valid()
    modifies table.pager, table.pager.pages
    ensures table.Valid() && table.pager.LoadedOnly(0) && table.Root() == old(table.Root())
    ensures fresh(cursor) && cursor.table == table && cursor.pageNum == table.rootPageNum
    ensures cursor.OnResidentPage() && cursor.Node() == table.Root()
    ensures cursor.Pos() == Start(NumCells(old(table.Root())))
  {
    var rootNode := table.pager.GetPage(table.rootPageNum);
    var numCells := NumCells(rootNode[..]);
    cursor := new Cursor(table, table.rootPageNum, 0, numCells == 0);
  }

  /** table_find: on a leaf root the cursor leaf_node_find returns; on any
      other root the source exits, here no cursor. */
  method TableFind(table: Table, key: int) returns (cursor: Cursor?)
    requires table.Valid()
    requires NodeType(table.Root()) == NODE_LEAF ==> LeafBounded(table.Root())
    modifies table.pager, table.pager.pages
    ensures table.Valid() && table.pager.LoadedOnly(0) && table.Root() == old(table.Root())
    ensures old(table.pager.pages[0]) != null ==> unchanged(table.pager, table.pager.pages)
    ensures cursor == null <==> NodeType(table.Root()) != NODE_LEAF
    ensures cursor != null ==> fresh(cursor) && cursor.table == table && cursor.pageNum == table.rootPageNum
    ensures cursor != null ==> cursor.OnResidentPage() && cursor.Node() == table.Root()
    ensures cursor != null ==> 0 <= cursor.cellNum <= NumCells(table.Root())
    ensures cursor != null && StrictlyIncreasing(Keys(table.Root())) ==>
      cursor.cellNum == LowerBound(Keys(table.Root()), key)
    ensures cursor != null && StrictlyIncreasing(Keys(table.Root())) ==>
      (key in Keys(table.Root()) <==> cursor.cellNum < NumCells(table.Root()) && KeyAt(table.Root(), cursor.cellNum) == key)
  {
    var rootPageNum := table.rootPageNum;
    var rootNode := table.pager.GetPage(rootPageNum);
    if NodeType(rootNode[..]) == NODE_LEAF {
      cursor := LeafNodeFind(table, rootPageNum, key);
    } else {
      cursor := null;
    }
  }

  /** cursor_advance: one cell further, and at the end once the cell number
      reaches the count of the cursor's page. */
  method CursorAdvance(cursor: Cursor)
    requires cursor.OnResidentPage()
    modifies cursor, cursor.table.pager, cursor.table.pager.pages
    ensures cursor.OnResidentPage() && cursor.Node() == old(cursor.Node())
    ensures unchanged(cursor.table.pager, cursor.table.pager.pages)
    ensures cursor.Pos() == Advance(old(cursor.Pos()), NumCells(cursor.Node()))
  {
    var pageNum := cursor.pageNum;
    var node := cursor.table.pager.GetPage(pageNum);
    cursor.cellNum := cursor.cellNum + 1;
    if cursor.cellNum >= NumCells(node[..]) {
      cursor.endOfTable := true;
    }
  }

  /** cursor_value: the row bytes of the cursor's cell, which deserialise
      to the row of that entry. */
  method CursorValue(cursor: Cursor) returns (value: seq<Byte>)
    requires cursor.OnResidentPage() && IsSlot(cursor.cellNum)
    modifies cursor.table.pager, cursor.table.pager.pages
    ensures cursor.OnResidentPage() && cursor.Node() == old(cursor.Node())
    ensures unchanged(cursor.table.pager, cursor.table.pager.pages)
    ensures |value| == ROW_SIZE && value == CellAt(cursor.Node(), cursor.cellNum)[LEAF_NODE_VALUE_OFFSET..]
    ensures LeafBounded(cursor.Node()) && cursor.cellNum < NumCells(cursor.Node()) ==>
      Deserialize(value) == Entries(cursor.Node())[cursor.cellNum].row
  {
    var pageNum := cursor.pageNum;
    var page := cursor.table.pager.GetPage(pageNum);
    value := ValueAt(page[..], cursor.cellNum);
  }

  /** leaf_node_insert at the cursor: refused on a full leaf (the source
      exits); otherwise the entry is inserted at the cursor's slot. */
  method LeafNodeInsert(cursor: Cursor, key: int, value: Row) returns (ok: bool)
    requires cursor.OnResidentPage() && 0 <= NumCells(cursor.Node())
    requires 0 <= cursor.cellNum <= NumCells(cursor.Node())
    requires IsInt32(key) && IsInt64(value.id)
    modifies cursor.table.pager, cursor.table.pager.pages, cursor.table.pager.pages[cursor.pageNum]
    ensures cursor.OnResidentPage()
    ensures unchanged(cursor.table.pager, cursor.table.pager.pages)
    ensures ok <==> old(NumCells(cursor.Node())) < LEAF_NODE_MAX_CELLS
    ensures !ok ==> cursor.Node() == old(cursor.Node())
    ensures ok ==> NumCells(cursor.Node()) == old(NumCells(cursor.Node())) + 1 && LeafBounded(cursor.Node())
    ensures ok ==> Cells(cursor.Node()) == Insert(old(Cells(cursor.Node())), cursor.cellNum, EncodeCell(key, value))
    ensures ok ==> cursor.Node()[..LEAF_NODE_NUM_CELLS_OFFSET] == old(cursor.Node()[..LEAF_NODE_NUM_CELLS_OFFSET])
    ensures ok && FitsLayout(value) ==>
      Entries(cursor.Node()) == Insert(old(Entries(cursor.Node())), cursor.cellNum, Entry(key, value))
  {
    var node := cursor.table.pager.GetPage(cursor.pageNum);
    ok := InsertCell(node, cursor.cellNum, key, value);
  }

  /** leaf_node_split_and_insert: the page num_pages becomes a new leaf and
      the full leaf's cells, with the new one inserted at the cursor, are
      spread over the old page (the left half) and the new one (the right
      half). Parent pointers and a new root are not created by the source
      either. */
  method LeafNodeSplitAndInsert(cursor: Cursor, key: int, value: Row)
    requires cursor.OnResidentPage() && NumCells(cursor.Node()) == LEAF_NODE_MAX_CELLS
    requires 0 <= cursor.cellNum <= LEAF_NODE_MAX_CELLS
    requires cursor.table.pager.numPages < TABLE_MAX_PAGES
    requires IsInt32(key) && IsInt64(value.id)
    modifies cursor.table.pager, cursor.table.pager.pages, cursor.table.pager.pages[cursor.pageNum]
    ensures cursor.OnResidentPage()
    ensures var newPageNum := old(cursor.table.pager.numPages);
      && cursor.table.pager.numPages == newPageNum + 1
      && cursor.table.pager.pages[..] == old(cursor.table.pager.pages[..])[newPageNum := cursor.table.pager.pages[newPageNum]]
      && var newNode := cursor.table.pager.pages[newPageNum];
      && newNode != null && fresh(newNode)
      && NodeType(newNode[..]) == NODE_LEAF
      && NumCells(cursor.Node()) == LEAF_NODE_LEFT_SPLIT_COUNT && NumCells(newNode[..]) == LEAF_NODE_RIGHT_SPLIT_COUNT
      && Cells(cursor.Node()) + Cells(newNode[..]) == Insert(old(Cells(cursor.Node())), cursor.cellNum, EncodeCell(key, value))
      && (FitsLayout(value) ==>
            Entries(cursor.Node()) + Entries(newNode[..]) == Insert(old(Entries(cursor.Node())), cursor.cellNum, Entry(key, value)))
    ensures cursor.Node()[..LEAF_NODE_NUM_CELLS_OFFSET] == old(cursor.Node()[..LEAF_NODE_NUM_CELLS_OFFSET])
    ensures NodeType(cursor.Node()) == old(NodeType(cursor.Node()))
    ensures Slots(cursor.Node())[LEAF_NODE_LEFT_SPLIT_COUNT..] == old(Slots(cursor.Node()))[LEAF_NODE_LEFT_SPLIT_COUNT..]
    ensures Tail(cursor.Node()) == old(Tail(cursor.Node()))
  {
    var pager := cursor.table.pager;
    var newPageNum := pager.GetUnusedPageNum();
    var newNode := pager.GetPage(newPageNum);
    var oldNode := pager.GetPage(cursor.pageNum);
    ghost var before := oldNode[..];
    SplitInto(oldNode, newNode, cursor.cellNum, key, value);
    TypeFromPrefix(before, oldNode[..]);
  }

  /** execute_insert with the insert the source leaves out: a full root is
      refused first, then a key already present, and otherwise the row is
      inserted under its id narrowed to an `int`, at the slot table_find
      returns. */
  method ExecuteInsert(table: Table, row: Row) returns (result: ExecuteResult)
    requires table.Valid() && FitsLayout(row)
    requires 0 <= NumCells(table.Root())
    requires NumCells(table.Root()) < LEAF_NODE_MAX_CELLS ==> NodeType(table.Root()) == NODE_LEAF
    modifies table.pager, table.pager.pages, table.pager.pages[0]
    ensures table.Valid() && table.pager.LoadedOnly(0)
    ensures result == ExecuteTableFull <==> old(NumCells(table.Root())) >= LEAF_NODE_MAX_CELLS
    ensures result != ExecuteSuccess ==> table.Root() == old(table.Root())
    ensures result == ExecuteDuplicateKey ==> ToInt32(row.id) in old(Keys(table.Root()))
    ensures old(LeafBounded(table.Root())) && old(StrictlyIncreasing(Keys(table.Root()))) ==>
      (result == ExecuteDuplicateKey <==>
         old(NumCells(table.Root())) < LEAF_NODE_MAX_CELLS && ToInt32(row.id) in old(Keys(table.Root())))
    ensures result == ExecuteSuccess && old(StrictlyIncreasing(Keys(table.Root()))) ==>
      && LeafBounded(table.Root())
      && Entries(table.Root()) == InsertByKey(old(Entries(table.Root())), Entry(ToInt32(row.id), row))
      && StrictlyIncreasing(Keys(table.Root()))
    ensures table.Root()[..LEAF_NODE_NUM_CELLS_OFFSET] == old(table.Root()[..LEAF_NODE_NUM_CELLS_OFFSET])
    ensures NodeType(table.Root()) == old(NodeType(table.Root()))
    ensures result == ExecuteSuccess ==>
      NumCells(table.Root()) == old(NumCells(table.Root())) + 1 && LeafBounded(table.Root())
  {
    var node := table.pager.GetPage(table.rootPageNum);
    var numCells := NumCells(node[..]);
    if numCells >= LEAF_NODE_MAX_CELLS {
      return ExecuteTableFull;
    }
    result := InsertIntoRoot(table, row, node, numCells);
  }

  /** The part of execute_insert after the table-full check, on a resident
      leaf root with room: the duplicate check, then the insert. */
  method InsertIntoRoot(table: Table, row: Row, node: array<Byte>, numCells: int) returns (result: ExecuteResult)
    requires table.Valid() && FitsLayout(row) && table.pager.pages[0] == node
    requires numCells == NumCells(table.Root())
    requires LeafBounded(table.Root()) && NumCells(table.Root()) < LEAF_NODE_MAX_CELLS
    requires NodeType(table.Root()) == NODE_LEAF
    modifies table.pager, table.pager.pages, table.pager.pages[0]
    ensures table.Valid() && unchanged(table.pager, table.pager.pages)
    ensures result != ExecuteTableFull
    ensures result == ExecuteDuplicateKey ==> table.Root() == old(table.Root())
    ensures result == ExecuteDuplicateKey ==> ToInt32(row.id) in old(Keys(table.Root()))
    ensures old(StrictlyIncreasing(Keys(table.Root()))) ==>
      (result == ExecuteDuplicateKey <==> ToInt32(row.id) in old(Keys(table.Root())))
    ensures result == ExecuteSuccess && old(StrictlyIncreasing(Keys(table.Root()))) ==>
      && LeafBounded(table.Root())
      && Entries(table.Root()) == InsertByKey(old(Entries(table.Root())), Entry(ToInt32(row.id), row))
      && StrictlyIncreasing(Keys(table.Root()))
    ensures table.Root()[..LEAF_NODE_NUM_CELLS_OFFSET] == old(table.Root()[..LEAF_NODE_NUM_CELLS_OFFSET])
    ensures NodeType(table.Root()) == old(NodeType(table.Root()))
    ensures result == ExecuteSuccess ==>
      NumCells(table.Root()) == old(NumCells(table.Root())) + 1 && LeafBounded(table.Root())
  {
    ghost var root0 := table.Root();
    var keyToInsert := ToInt32(row.id);
    var cursor := TableFind(table, keyToInsert);
    if cursor.cellNum < numCells {
      var keyAtIndex := KeyAt(node[..], cursor.cellNum);
      if keyAtIndex == keyToInsert {
        return ExecuteDuplicateKey;
      }
    }
    var ok := LeafNodeInsert(cursor, keyToInsert, row);
    TypeFromPrefix(root0, table.Root());
    if StrictlyIncreasing(Keys(root0)) {
      InsertedByKey(root0, table.Root(), Entry(keyToInsert, row));
    }
    result := ExecuteSuccess;
  }

  /** Pages that agree on the common node header have the same node type. */
  lemma TypeFromPrefix(p: Page, q: Page)
    requires p[..LEAF_NODE_NUM_CELLS_OFFSET] == q[..LEAF_NODE_NUM_CELLS_OFFSET]
    ensures NodeType(p) == NodeType(q)
  {
    assert p[NODE_TYPE_OFFSET..NODE_TYPE_OFFSET + NODE_TYPE_SIZE]
        == p[..LEAF_NODE_NUM_CELLS_OFFSET][NODE_TYPE_OFFSET..NODE_TYPE_OFFSET + NODE_TYPE_SIZE];
    assert q[NODE_TYPE_OFFSET..NODE_TYPE_OFFSET + NODE_TYPE_SIZE]
        == q[..LEAF_NODE_NUM_CELLS_OFFSET][NODE_TYPE_OFFSET..NODE_TYPE_OFFSET + NODE_TYPE_SIZE];
  }

  /** An entry placed at the lower bound of its absent key is the entry
      placed by key, and the leaf's keys stay strictly increasing. */
  lemma InsertedByKey(p0: Page, p1: Page, e: Entry)
    requires LeafBounded(p0) && LeafBounded(p1)
    requires StrictlyIncreasing(Keys(p0)) && e.key !in Keys(p0)
    requires Entries(p1) == Insert(Entries(p0), LowerBound(Keys(p0), e.key), e)
    ensures Entries(p1) == InsertByKey(Entries(p0), e)
    ensures StrictlyIncreasing(Keys(p1))
  {
    KeysAreEntryKeys(p0);
    KeysAreEntryKeys(p1);
    InsertByKeyKeepsOrder(Entries(p0), e);
  }

  /** execute_insert as written: the two checks and no write, so the page
      after it is the page before it. */
  function ExecuteInsertAsWritten(root: Page, row: Row): (r: (ExecuteResult, Page))
    requires LeafBounded(root) && StrictlyIncreasing(Keys(root)) && IsInt64(row.id)
    ensures r.1 == root
    ensures r.0 == ExecuteTableFull <==> NumCells(root) >= LEAF_NODE_MAX_CELLS
    ensures r.0 == ExecuteDuplicateKey <==> NumCells(root) < LEAF_NODE_MAX_CELLS && ToInt32(row.id) in Keys(root)
  {
    var key := ToInt32(row.id);
    var cellNum := LowerBound(Keys(root), key);
    LowerBoundFinds(Keys(root), key);
    if NumCells(root) >= LEAF_NODE_MAX_CELLS then (ExecuteTableFull, root)
    else if cellNum < NumCells(root) && KeyAt(root, cellNum) == key then (ExecuteDuplicateKey, root)
    else (ExecuteSuccess, root)
  }

  /** As written, inserting a new key into a leaf with room reports success
      and leaves the key absent from the leaf. */
  lemma AsWrittenInsertLosesRow(root: Page, row: Row)
    requires LeafBounded(root) && StrictlyIncreasing(Keys(root)) && IsInt64(row.id)
    requires NumCells(root) < LEAF_NODE_MAX_CELLS && ToInt32(row.id) !in Keys(root)
    ensures ExecuteInsertAsWritten(root, row).0 == ExecuteSuccess
    ensures ToInt32(row.id) !in Keys(ExecuteInsertAsWritten(root, row).1)
  {
    LowerBoundFinds(Keys(root), ToInt32(row.id));
  }

  /** execute_select with the advance the source leaves out: the rows of the
      root's cells, in slot order. */
  method ExecuteSelect(table: Table) returns (rows: seq<Row>)
    requires table.Valid() && LeafBounded(table.Root())
    modifies table.pager, table.pager.pages
    ensures table.Valid() && table.pager.LoadedOnly(0) && table.Root() == old(table.Root())
    ensures rows == RowsOf(Entries(old(table.Root())))
  {
    var cursor := TableStart(table);
    rows := ScanRows(cursor);
  }

  /** The select loop from a cursor at the start of a leaf: the rows of the
      cursor's page in slot order, the pager left as it was. */
  method ScanRows(cursor: Cursor) returns (rows: seq<Row>)
    requires cursor.OnResidentPage() && LeafBounded(cursor.Node())
    requires cursor.Pos() == Start(NumCells(cursor.Node()))
    modifies cursor, cursor.table.pager, cursor.table.pager.pages
    ensures unchanged(cursor.table.pager, cursor.table.pager.pages)
    ensures rows == RowsOf(Entries(cursor.Node()))
    ensures var n := NumCells(cursor.Node()); var v := Visited(Start(n), n, n);
      && (forall j :: 0 <= j < |v| ==> 0 <= v[j] < n)
      && rows == RowsAt(Entries(cursor.Node()), v)
  {
    ghost var node := cursor.Node();
    ghost var n := NumCells(node);
    rows := [];
    while !cursor.endOfTable
      invariant cursor.OnResidentPage() && cursor.Node() == node
      invariant unchanged(cursor.table.pager, cursor.table.pager.pages)
      invariant 0 <= cursor.cellNum <= n && (cursor.endOfTable <==> cursor.cellNum >= n)
      invariant rows == RowsOf(Entries(node))[..cursor.cellNum]
      decreases n - cursor.cellNum
    {
      var value := CursorValue(cursor);
      var row := Deserialize(value);
      RowsPrefixStep(Entries(node), cursor.cellNum, row);
      rows := rows + [row];
      CursorAdvance(cursor);
    }
    VisitedRowsAreRows(Entries(node));
  }

  /** The rows of the entries at the given cell numbers, in that order. */
  function RowsAt(es: seq<Entry>, cells: seq<int>): (rs: seq<Row>)
    requires forall j :: 0 <= j < |cells| ==> 0 <= cells[j] < |es|
    ensures |rs| == |cells| && forall j :: 0 <= j < |cells| ==> rs[j] == es[cells[j]].row
  {
    seq(|cells|, j requires 0 <= j < |cells| => es[cells[j]].row)
  }

  /** The cells the cursor machine visits from table_start are the slots
      in order, so reading their rows gives the rows of the leaf. */
  lemma VisitedRowsAreRows(es: seq<Entry>)
    ensures var v := Visited(Start(|es|), |es|, |es|);
      && (forall j :: 0 <= j < |v| ==> 0 <= v[j] < |es|)
      && RowsAt(es, v) == RowsOf(es)
  {
    ScanVisitsInOrder(|es|);
  }

  lemma RowsPrefixStep(es: seq<Entry>, i: int, row: Row)
    requires 0 <= i < |es| && row == es[i].row
    ensures RowsOf(es)[..i] + [row] == RowsOf(es)[..i + 1]
  {
  }

  /** On a leaf whose keys are strictly increasing and whose rows carry
      their keys as ids, select returns the rows in ascending id order. */
  lemma SelectInIdOrder(es: seq<Entry>)
    requires StrictlyIncreasing(KeysOf(es))
    requires forall j :: 0 <= j < |es| ==> es[j].row.id == es[j].key
    ensures forall i, j :: 0 <= i < j < |es| ==> RowsOf(es)[i].id < RowsOf(es)[j].id
  {
  }
}
