/** The byte layout of a 4096-byte page read as a B-tree leaf: a common
    header (node type, is-root flag, parent page), the cell count, then an
    array of cells, each a 4-byte key followed by a serialised row. */
module NodeLayout {
  import opened Bytes
  import opened RowCodec

  const PAGE_SIZE: int := 4096

  // NodeType: the enum's two values as an int in the page
  const NODE_INTERNAL: int := 0
  const NODE_LEAF: int := 1

  // Common node header
  const NODE_TYPE_SIZE: int := 4
  const NODE_TYPE_OFFSET: int := 0
  const IS_ROOT_SIZE: int := 4
  const IS_ROOT_OFFSET: int := NODE_TYPE_SIZE
  const PARENT_POINTER_SIZE: int := 4
  const PARENT_POINTER_OFFSET: int := IS_ROOT_OFFSET + IS_ROOT_SIZE
  const COMMON_NODE_HEADER_SIZE: int := NODE_TYPE_SIZE + IS_ROOT_SIZE + PARENT_POINTER_SIZE

  // Leaf node header
  const LEAF_NODE_NUM_CELLS_SIZE: int := 4
  const LEAF_NODE_NUM_CELLS_OFFSET: int := COMMON_NODE_HEADER_SIZE
  const LEAF_NODE_HEADER_SIZE: int := COMMON_NODE_HEADER_SIZE + LEAF_NODE_NUM_CELLS_SIZE

  // Leaf node body
  const LEAF_NODE_KEY_SIZE: int := 4
  const LEAF_NODE_KEY_OFFSET: int := 0
  const LEAF_NODE_VALUE_SIZE: int := ROW_SIZE
  const LEAF_NODE_VALUE_OFFSET: int := LEAF_NODE_KEY_OFFSET + LEAF_NODE_KEY_SIZE
  const LEAF_NODE_CELL_SIZE: int := LEAF_NODE_KEY_SIZE + LEAF_NODE_VALUE_SIZE
  const LEAF_NODE_SPACE_FOR_CELLS: int := PAGE_SIZE - LEAF_NODE_HEADER_SIZE
  const LEAF_NODE_MAX_CELLS: int := LEAF_NODE_SPACE_FOR_CELLS / LEAF_NODE_CELL_SIZE

  const LEAF_NODE_RIGHT_SPLIT_COUNT: int := (LEAF_NODE_MAX_CELLS + 1) / 2
  const LEAF_NODE_LEFT_SPLIT_COUNT: int := (LEAF_NODE_MAX_CELLS + 1) - LEAF_NODE_RIGHT_SPLIT_COUNT

  /** The end of the last cell slot; the bytes from here to the end of the
      page are never used. */
  const CELLS_END: int := LEAF_NODE_HEADER_SIZE + LEAF_NODE_MAX_CELLS * LEAF_NODE_CELL_SIZE

  type Page = p: seq<Byte> | |p| == PAGE_SIZE witness seq(PAGE_SIZE, _ => 0)
  type CellBytes = c: seq<Byte> | |c| == LEAF_NODE_CELL_SIZE witness seq(LEAF_NODE_CELL_SIZE, _ => 0)

  /** A decoded cell: the key and the row stored behind it. */
  datatype Entry = Entry(key: int, row: Row)

  lemma LayoutConstants()
    ensures COMMON_NODE_HEADER_SIZE == 12 && LEAF_NODE_HEADER_SIZE == 16
    ensures LEAF_NODE_CELL_SIZE == 301 && LEAF_NODE_SPACE_FOR_CELLS == 4080
    ensures LEAF_NODE_MAX_CELLS == 13
    ensures LEAF_NODE_MAX_CELLS * LEAF_NODE_CELL_SIZE <= LEAF_NODE_SPACE_FOR_CELLS
    ensures (LEAF_NODE_MAX_CELLS + 1) * LEAF_NODE_CELL_SIZE > LEAF_NODE_SPACE_FOR_CELLS
    ensures LEAF_NODE_RIGHT_SPLIT_COUNT == 7 && LEAF_NODE_LEFT_SPLIT_COUNT == 7
    ensures LEAF_NODE_LEFT_SPLIT_COUNT + LEAF_NODE_RIGHT_SPLIT_COUNT == LEAF_NODE_MAX_CELLS + 1
    ensures LEAF_NODE_RIGHT_SPLIT_COUNT <= LEAF_NODE_LEFT_SPLIT_COUNT <= LEAF_NODE_RIGHT_SPLIT_COUNT + 1
    ensures CELLS_END == 3929 && CELLS_END <= PAGE_SIZE
  {
  }

  /** The split's destination index `i % LEFT_SPLIT_COUNT`: the index
      itself on the left, and `i - LEFT_SPLIT_COUNT` on the right. */
  lemma SplitIndex(i: int)
    requires 0 <= i <= LEAF_NODE_MAX_CELLS
    ensures i < LEAF_NODE_LEFT_SPLIT_COUNT ==> i % LEAF_NODE_LEFT_SPLIT_COUNT == i
    ensures i >= LEAF_NODE_LEFT_SPLIT_COUNT ==>
      i % LEAF_NODE_LEFT_SPLIT_COUNT == i - LEAF_NODE_LEFT_SPLIT_COUNT < LEAF_NODE_RIGHT_SPLIT_COUNT
  {
  }

  predicate IsSlot(i: int) { 0 <= i < LEAF_NODE_MAX_CELLS }

  /** leaf_node_cell, with the offset multiplied by the cell size. */
  function CellOffset(i: int): (off: int)
    ensures IsSlot(i) ==> LEAF_NODE_HEADER_SIZE <= off && off + LEAF_NODE_CELL_SIZE <= CELLS_END
  {
    LEAF_NODE_HEADER_SIZE + i * LEAF_NODE_CELL_SIZE
  }

  /** leaf_node_cell as written: the cell number is added, not multiplied,
      so no cell number reaches the slot it should (300 * i == 301 has no
      integer solution). */
  function CellOffsetAsWritten(i: int): (off: int)
    ensures off != CellOffset(i)
  {
    LEAF_NODE_HEADER_SIZE + i + LEAF_NODE_CELL_SIZE
  }

  /** As written, consecutive cells start one byte apart, so writing any
      cell overwrites all but one byte of its neighbour. */
  lemma AsWrittenCellsOverlap(i: int)
    requires 0 <= i && i + 1 < LEAF_NODE_MAX_CELLS
    ensures CellOffsetAsWritten(i) < CellOffsetAsWritten(i + 1)
    ensures CellOffsetAsWritten(i + 1) < CellOffsetAsWritten(i) + LEAF_NODE_CELL_SIZE
  {
  }

  /** With the multiplied offset, the slots follow the header, lie inside
      the page and do not overlap. */
  lemma CellsDisjoint(i: int, j: int)
    requires IsSlot(i) && IsSlot(j) && i < j
    ensures LEAF_NODE_HEADER_SIZE <= CellOffset(i)
    ensures CellOffset(i) + LEAF_NODE_CELL_SIZE <= CellOffset(j)
    ensures CellOffset(j) + LEAF_NODE_CELL_SIZE <= CELLS_END <= PAGE_SIZE
  {
  }

  /** p with the bytes bs written at offset off (a memcpy). */
  function Splice(p: seq<Byte>, off: int, bs: seq<Byte>): (q: seq<Byte>)
    requires 0 <= off && off + |bs| <= |p|
    ensures |q| == |p|
    ensures forall k :: 0 <= k < |q| ==> q[k] == if off <= k < off + |bs| then bs[k - off] else p[k]
  {
    p[..off] + bs + p[off + |bs|..]
  }

  lemma SpliceRead(p: seq<Byte>, off: int, bs: seq<Byte>, lo: int, hi: int)
    requires 0 <= off && off + |bs| <= |p|
    requires 0 <= lo <= hi <= |p|
    ensures hi <= off || off + |bs| <= lo ==> Splice(p, off, bs)[lo..hi] == p[lo..hi]
    ensures lo == off && hi == off + |bs| ==> Splice(p, off, bs)[lo..hi] == bs
  {
    var q := Splice(p, off, bs);
    if hi <= off || off + |bs| <= lo {
      assert forall k :: 0 <= k < hi - lo ==> q[lo..hi][k] == p[lo..hi][k];
    }
    if lo == off && hi == off + |bs| {
      assert forall k :: 0 <= k < hi - lo ==> q[lo..hi][k] == bs[k];
    }
  }

  /** get_node_type: the int at the start of the page. */
  function NodeType(p: Page): (t: int)
    ensures IsInt32(t)
  {
    DecodeInt32(p[NODE_TYPE_OFFSET..NODE_TYPE_OFFSET + NODE_TYPE_SIZE])
  }

  /** The int that leaf_node_num_cells points to. */
  function NumCells(p: Page): (n: int)
    ensures IsInt32(n)
  {
    DecodeInt32(p[LEAF_NODE_NUM_CELLS_OFFSET..LEAF_NODE_NUM_CELLS_OFFSET + LEAF_NODE_NUM_CELLS_SIZE])
  }

  /** The bytes of cell slot i: the 4-byte key, then the ROW_SIZE bytes
      that leaf_node_value points to. */
  function CellAt(p: Page, i: int): (c: CellBytes)
    requires IsSlot(i)
    ensures c[LEAF_NODE_VALUE_OFFSET..] == ValueAt(p, i)
  {
    p[CellOffset(i)..CellOffset(i) + LEAF_NODE_CELL_SIZE]
  }

  /** The int that leaf_node_key points to. */
  function KeyAt(p: Page, i: int): (k: int)
    requires IsSlot(i)
    ensures IsInt32(k)
  {
    DecodeInt32(p[CellOffset(i) + LEAF_NODE_KEY_OFFSET..CellOffset(i) + LEAF_NODE_VALUE_OFFSET])
  }

  /** The ROW_SIZE bytes that leaf_node_value points to. */
  function ValueAt(p: Page, i: int): (v: seq<Byte>)
    requires IsSlot(i)
    ensures |v| == ROW_SIZE
  {
    p[CellOffset(i) + LEAF_NODE_VALUE_OFFSET..CellOffset(i) + LEAF_NODE_CELL_SIZE]
  }

  /** The header, the slots and the unused tail partition the page. */
  function Header(p: Page): seq<Byte> { p[..LEAF_NODE_HEADER_SIZE] }

  function Tail(p: Page): seq<Byte> { p[CELLS_END..] }

  function Slots(p: Page): (s: seq<CellBytes>)
    ensures |s| == LEAF_NODE_MAX_CELLS
    ensures forall i :: 0 <= i < |s| ==> s[i] == CellAt(p, i)
  {
    seq(LEAF_NODE_MAX_CELLS, i requires IsSlot(i) => CellAt(p, i))
  }

  /** A page can be read as a leaf when its cell count is within bounds. */
  predicate LeafBounded(p: Page) { 0 <= NumCells(p) <= LEAF_NODE_MAX_CELLS }

  /** The occupied cells of a leaf, as bytes. */
  function Cells(p: Page): (cs: seq<CellBytes>)
    requires LeafBounded(p)
    ensures |cs| == NumCells(p)
  {
    Slots(p)[..NumCells(p)]
  }

  function EncodeCell(key: int, row: Row): (c: CellBytes)
    requires IsInt32(key) && IsInt64(row.id)
  {
    EncodeInt32(key) + Serialize(row)
  }

  function DecodeCell(c: CellBytes): Entry
  {
    Entry(DecodeInt32(c[..LEAF_NODE_VALUE_OFFSET]), Deserialize(c[LEAF_NODE_VALUE_OFFSET..]))
  }

  /** A cell written from a key and a row reads back as that key and row. */
  lemma DecodeEncodeCell(key: int, row: Row)
    requires IsInt32(key) && FitsLayout(row)
    ensures DecodeCell(EncodeCell(key, row)) == Entry(key, row)
  {
    var c := EncodeCell(key, row);
    assert c[..LEAF_NODE_VALUE_OFFSET] == EncodeInt32(key);
    assert c[LEAF_NODE_VALUE_OFFSET..] == Serialize(row);
    DecodeEncodeInt32(key);
    RoundTrip(row);
  }

  function DecodeCells(cs: seq<CellBytes>): (es: seq<Entry>)
    ensures |es| == |cs|
    ensures forall j :: 0 <= j < |cs| ==> es[j] == DecodeCell(cs[j])
  {
    seq(|cs|, j requires 0 <= j < |cs| => DecodeCell(cs[j]))
  }

  /** The abstract leaf: its cells in slot order as (key, row) pairs. */
  function Entries(p: Page): (es: seq<Entry>)
    requires LeafBounded(p)
    ensures |es| == NumCells(p)
    ensures forall j :: 0 <= j < |es| ==> es[j] == DecodeCell(CellAt(p, j))
  {
    DecodeCells(Cells(p))
  }

  function KeysOf(es: seq<Entry>): (ks: seq<int>)
    ensures |ks| == |es| && forall j :: 0 <= j < |es| ==> ks[j] == es[j].key
  {
    seq(|es|, j requires 0 <= j < |es| => es[j].key)
  }

  function RowsOf(es: seq<Entry>): (rs: seq<Row>)
    ensures |rs| == |es| && forall j :: 0 <= j < |es| ==> rs[j] == es[j].row
  {
    seq(|es|, j requires 0 <= j < |es| => es[j].row)
  }

  /** The keys of a leaf in slot order, as leaf_node_key reads them. */
  function Keys(p: Page): (ks: seq<int>)
    requires LeafBounded(p)
    ensures |ks| == NumCells(p)
    ensures forall j :: 0 <= j < |ks| ==> ks[j] == KeyAt(p, j)
  {
    seq(NumCells(p), j requires 0 <= j < NumCells(p) => KeyAt(p, j))
  }

  /** Reading the key through leaf_node_key agrees with decoding the cell. */
  lemma KeysAreEntryKeys(p: Page)
    requires LeafBounded(p)
    ensures Keys(p) == KeysOf(Entries(p))
  {
    forall j | 0 <= j < NumCells(p) ensures Keys(p)[j] == KeysOf(Entries(p))[j] {
      assert Entries(p)[j] == DecodeCell(Cells(p)[j]);
      assert Cells(p)[j] == CellAt(p, j);
      KeyAtIsCellKey(p, j);
    }
  }

  /** Reading the key through leaf_node_key agrees with decoding the cell. */
  lemma KeyAtIsCellKey(p: Page, i: int)
    requires IsSlot(i)
    ensures KeyAt(p, i) == DecodeCell(CellAt(p, i)).key
  {
    assert CellAt(p, i)[..LEAF_NODE_VALUE_OFFSET]
        == p[CellOffset(i) + LEAF_NODE_KEY_OFFSET..CellOffset(i) + LEAF_NODE_VALUE_OFFSET];
  }

  /** Writing a whole cell slot changes that slot and nothing else. */
  function SetCell(p: Page, i: int, c: CellBytes): (q: Page)
    requires IsSlot(i)
    ensures Slots(q) == Slots(p)[i := c]
    ensures Header(q) == Header(p) && Tail(q) == Tail(p)
  {
    var q := Splice(p, CellOffset(i), c);
    SpliceRead(p, CellOffset(i), c, 0, LEAF_NODE_HEADER_SIZE);
    SpliceRead(p, CellOffset(i), c, CELLS_END, PAGE_SIZE);
    forall j | IsSlot(j) ensures Slots(q)[j] == Slots(p)[i := c][j] {
      CellWriteReads(p, i, c, j);
    }
    q
  }

  /** After a cell is written into slot i, slot j reads as the new cell if
      j is i and as before otherwise. */
  lemma CellWriteReads(p: Page, i: int, c: CellBytes, j: int)
    requires IsSlot(i) && IsSlot(j)
    ensures CellAt(Splice(p, CellOffset(i), c), j) == if j == i then c else CellAt(p, j)
  {
    if j != i {
      CellsDisjoint(if i < j then i else j, if i < j then j else i);
    }
    SpliceRead(p, CellOffset(i), c, CellOffset(j), CellOffset(j) + LEAF_NODE_CELL_SIZE);
  }

  /** A write inside the header leaves the slots and the tail alone. */
  lemma HeaderWriteKeepsSlots(p: Page, off: int, bs: seq<Byte>)
    requires 0 <= off && off + |bs| <= LEAF_NODE_HEADER_SIZE
    ensures Slots(Splice(p, off, bs)) == Slots(p)
    ensures Tail(Splice(p, off, bs)) == Tail(p)
  {
    var q: Page := Splice(p, off, bs);
    SpliceRead(p, off, bs, CELLS_END, PAGE_SIZE);
    forall j | IsSlot(j) ensures CellAt(q, j) == CellAt(p, j) {
      SpliceRead(p, off, bs, CellOffset(j), CellOffset(j) + LEAF_NODE_CELL_SIZE);
    }
  }

  /** Writing one header int changes that field and nothing else. */
  function SetHeaderInt(p: Page, off: int, x: int): (q: Page)
    requires off == NODE_TYPE_OFFSET || off == LEAF_NODE_NUM_CELLS_OFFSET
    requires IsInt32(x)
    ensures Slots(q) == Slots(p) && Tail(q) == Tail(p)
    ensures DecodeInt32(q[off..off + 4]) == x
    ensures forall k :: 0 <= k < LEAF_NODE_HEADER_SIZE && !(off <= k < off + 4) ==> q[k] == p[k]
  {
    var bs := EncodeInt32(x);
    var q := Splice(p, off, bs);
    SpliceRead(p, off, bs, off, off + 4);
    DecodeEncodeInt32(x);
    HeaderWriteKeepsSlots(p, off, bs);
    q
  }

  /** The page after set_node_type. */
  function SetNodeType(p: Page, t: int): (q: Page)
    requires IsInt32(t)
    ensures NodeType(q) == t && NumCells(q) == NumCells(p)
    ensures q[IS_ROOT_OFFSET..LEAF_NODE_HEADER_SIZE] == p[IS_ROOT_OFFSET..LEAF_NODE_HEADER_SIZE]
    ensures Slots(q) == Slots(p) && Tail(q) == Tail(p)
  {
    var q := SetHeaderInt(p, NODE_TYPE_OFFSET, t);
    assert q[IS_ROOT_OFFSET..LEAF_NODE_HEADER_SIZE] == p[IS_ROOT_OFFSET..LEAF_NODE_HEADER_SIZE];
    assert q[12..16] == p[12..16];
    q
  }

  /** The page after its cell count is overwritten with n. */
  function SetNumCells(p: Page, n: int): (q: Page)
    requires IsInt32(n)
    ensures NumCells(q) == n
    ensures q[..LEAF_NODE_NUM_CELLS_OFFSET] == p[..LEAF_NODE_NUM_CELLS_OFFSET]
    ensures NodeType(q) == NodeType(p)
    ensures Slots(q) == Slots(p) && Tail(q) == Tail(p)
  {
    var q := SetHeaderInt(p, LEAF_NODE_NUM_CELLS_OFFSET, n);
    assert q[..LEAF_NODE_NUM_CELLS_OFFSET] == p[..LEAF_NODE_NUM_CELLS_OFFSET];
    assert q[0..4] == p[0..4];
    q
  }

  /** The page after initialize_leaf_node: a leaf with no cells, whose other
      header fields and slots keep whatever the page held. */
  function InitializeLeaf(p: Page): (q: Page)
    ensures NodeType(q) == NODE_LEAF && NumCells(q) == 0
    ensures LeafBounded(q) && Entries(q) == []
    ensures q[IS_ROOT_OFFSET..LEAF_NODE_NUM_CELLS_OFFSET] == p[IS_ROOT_OFFSET..LEAF_NODE_NUM_CELLS_OFFSET]
    ensures Slots(q) == Slots(p) && Tail(q) == Tail(p)
  {
    var p1 := SetNodeType(p, NODE_LEAF);
    var q := SetNumCells(p1, 0);
    assert q[IS_ROOT_OFFSET..LEAF_NODE_NUM_CELLS_OFFSET] == p1[IS_ROOT_OFFSET..LEAF_NODE_NUM_CELLS_OFFSET];
    assert p1[IS_ROOT_OFFSET..LEAF_NODE_NUM_CELLS_OFFSET] == p[IS_ROOT_OFFSET..LEAF_NODE_NUM_CELLS_OFFSET];
    q
  }

  /** The header, the slots and the tail together determine the page. */
  lemma PageDeterminedByParts(p: Page, q: Page)
    requires Header(p) == Header(q) && Slots(p) == Slots(q) && Tail(p) == Tail(q)
    ensures p == q
  {
    forall k | 0 <= k < PAGE_SIZE ensures p[k] == q[k] {
      if k < LEAF_NODE_HEADER_SIZE {
        assert p[k] == Header(p)[k];
      } else if k >= CELLS_END {
        assert p[k] == Tail(p)[k - CELLS_END];
      } else {
        var i := (k - LEAF_NODE_HEADER_SIZE) / LEAF_NODE_CELL_SIZE;
        assert IsSlot(i);
        assert CellOffset(i) <= k < CellOffset(i) + LEAF_NODE_CELL_SIZE;
        assert p[k] == CellAt(p, i)[k - CellOffset(i)];
        assert CellAt(p, i) == Slots(p)[i];
      }
    }
  }

  /** memcpy of bs into the page buffer at offset off. */
  method WriteBytes(node: array<Byte>, off: int, bs: seq<Byte>)
    requires 0 <= off && off + |bs| <= node.Length
    modifies node
    ensures node[..] == Splice(old(node[..]), off, bs)
  {
    forall k | off <= k < off + |bs| {
      node[k] := bs[k - off];
    }
    assert forall k :: 0 <= k < node.Length ==> node[..][k] == Splice(old(node[..]), off, bs)[k];
  }

  /** Writes a whole cell into slot i of the page buffer. */
  method WriteCell(node: array<Byte>, i: int, c: CellBytes)
    requires node.Length == PAGE_SIZE && IsSlot(i)
    modifies node
    ensures node[..] == SetCell(old(node[..]), i, c)
  {
    WriteBytes(node, CellOffset(i), c);
  }

  /** set_node_type on a page buffer. */
  method SetNodeTypeOf(node: array<Byte>, t: int)
    requires node.Length == PAGE_SIZE && IsInt32(t)
    modifies node
    ensures node[..] == SetNodeType(old(node[..]), t)
  {
    WriteBytes(node, NODE_TYPE_OFFSET, EncodeInt32(t));
  }

  /** `*leaf_node_num_cells(node) = n` on a page buffer. */
  method SetNumCellsOf(node: array<Byte>, n: int)
    requires node.Length == PAGE_SIZE && IsInt32(n)
    modifies node
    ensures node[..] == SetNumCells(old(node[..]), n)
  {
    WriteBytes(node, LEAF_NODE_NUM_CELLS_OFFSET, EncodeInt32(n));
  }

  /** initialize_leaf_node on a page buffer. */
  method InitializeLeafNode(node: array<Byte>)
    requires node.Length == PAGE_SIZE
    modifies node
    ensures node[..] == InitializeLeaf(old(node[..]))
  {
    SetNodeTypeOf(node, NODE_LEAF);
    SetNumCellsOf(node, 0);
  }
}
