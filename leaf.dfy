/** The three operations on one leaf page: the binary search of
    leaf_node_find, the shift-right insert of leaf_node_insert and the
    redistribution of leaf_node_split_and_insert. Each works on the page
    buffer in place and is specified by what it does to the page's cells. */
module Leaf {
  import opened Bytes
  import opened RowCodec
  import opened NodeLayout

  predicate StrictlyIncreasing(ks: seq<int>)
  {
    forall i, j :: 0 <= i < j < |ks| ==> ks[i] < ks[j]
  }

  /** The slot a search for k lands on: the number of leading keys below k,
      so every key before it is smaller and the key at it, if any, is not. */
  function LowerBound(ks: seq<int>, k: int): (i: nat)
    ensures i <= |ks|
    ensures forall j :: 0 <= j < i ==> ks[j] < k
    ensures i < |ks| ==> ks[i] >= k
  {
    if |ks| == 0 || ks[0] >= k then 0 else 1 + LowerBound(ks[1..], k)
  }

  /** On sorted keys the lower bound is the only slot with smaller keys
      before it and larger keys from it on. */
  lemma LowerBoundUnique(ks: seq<int>, k: int, i: int)
    requires StrictlyIncreasing(ks) && 0 <= i <= |ks|
    requires forall j :: 0 <= j < i ==> ks[j] < k
    requires forall j :: i <= j < |ks| ==> ks[j] >= k
    ensures i == LowerBound(ks, k)
  {
    var b := LowerBound(ks, k);
    if i < |ks| {
      assert ks[i] >= k;
    }
    if b < |ks| {
      assert ks[b] >= k;
    }
  }

  /** A key that is present sits exactly at its lower bound; one that is
      absent leaves the key at the lower bound, if any, strictly greater. */
  lemma LowerBoundFinds(ks: seq<int>, k: int)
    requires StrictlyIncreasing(ks)
    ensures k in ks <==> LowerBound(ks, k) < |ks| && ks[LowerBound(ks, k)] == k
    ensures k !in ks ==> forall j :: LowerBound(ks, k) <= j < |ks| ==> ks[j] > k
  {
    var b := LowerBound(ks, k);
    if k in ks {
      var m :| 0 <= m < |ks| && ks[m] == k;
      assert b <= m;
    }
  }

  /** s with x inserted before position i. */
  function Insert<T>(s: seq<T>, i: int, x: T): (r: seq<T>)
    requires 0 <= i <= |s|
    ensures |r| == |s| + 1
    ensures forall j :: 0 <= j < |r| ==> r[j] == if j < i then s[j] else if j == i then x else s[j - 1]
  {
    s[..i] + [x] + s[i..]
  }

  /** Inserting an absent key at its lower bound keeps the keys strictly
      increasing. */
  lemma InsertKeepsSorted(ks: seq<int>, k: int)
    requires StrictlyIncreasing(ks) && k !in ks
    ensures StrictlyIncreasing(Insert(ks, LowerBound(ks, k), k))
  {
    LowerBoundFinds(ks, k);
    var b := LowerBound(ks, k);
    var r := Insert(ks, b, k);
    forall i, j | 0 <= i < j < |r| ensures r[i] < r[j] {
      if j < b {
        assert r[i] == ks[i] && r[j] == ks[j];
      } else if j == b {
        assert r[i] == ks[i];
      } else if i < b {
        assert r[i] == ks[i] && r[j] == ks[j - 1];
      } else if i == b {
        assert r[j] == ks[j - 1];
      } else {
        assert r[i] == ks[i - 1] && r[j] == ks[j - 1];
      }
    }
  }

  /** The leaf's entries after a new entry is placed at the lower bound of
      its key, as execute_insert places it. */
  function InsertByKey(es: seq<Entry>, e: Entry): seq<Entry>
  {
    Insert(es, LowerBound(KeysOf(es), e.key), e)
  }

  /** Placing an entry whose key is absent keeps the keys strictly
      increasing, adds exactly that entry and loses none. */
  lemma InsertByKeyKeepsOrder(es: seq<Entry>, e: Entry)
    requires StrictlyIncreasing(KeysOf(es)) && e.key !in KeysOf(es)
    ensures StrictlyIncreasing(KeysOf(InsertByKey(es, e)))
    ensures |InsertByKey(es, e)| == |es| + 1
    ensures forall x :: x in InsertByKey(es, e) <==> x in es || x == e
  {
    var ks := KeysOf(es);
    var i := LowerBound(ks, e.key);
    var r := InsertByKey(es, e);
    InsertKeepsSorted(ks, e.key);
    assert KeysOf(r) == Insert(ks, i, e.key) by {
      var l, m := KeysOf(r), Insert(ks, i, e.key);
      forall j | 0 <= j < |l| ensures l[j] == m[j] {
      }
    }
    assert r == es[..i] + [e] + es[i..];
    assert es == es[..i] + es[i..];
  }

  /** Decoding commutes with inserting a cell. */
  lemma DecodeCellsInsert(cs: seq<CellBytes>, i: int, c: CellBytes)
    requires 0 <= i <= |cs|
    ensures DecodeCells(Insert(cs, i, c)) == Insert(DecodeCells(cs), i, DecodeCell(c))
  {
    var l, r := DecodeCells(Insert(cs, i, c)), Insert(DecodeCells(cs), i, DecodeCell(c));
    forall j | 0 <= j < |l| ensures l[j] == r[j] {
    }
  }

  /** Writing the key and then the row into slot i, as leaf_node_insert does,
      writes the whole encoded cell. */
  lemma KeyThenValueIsCell(p: Page, i: int, key: int, row: Row)
    requires IsSlot(i) && IsInt32(key) && IsInt64(row.id)
    ensures Splice(Splice(p, CellOffset(i) + LEAF_NODE_KEY_OFFSET, EncodeInt32(key)),
                   CellOffset(i) + LEAF_NODE_VALUE_OFFSET, Serialize(row))
         == SetCell(p, i, EncodeCell(key, row))
  {
    var off := CellOffset(i);
    var c := EncodeCell(key, row);
    var p1 := Splice(p, off + LEAF_NODE_KEY_OFFSET, EncodeInt32(key));
    var p2 := Splice(p1, off + LEAF_NODE_VALUE_OFFSET, Serialize(row));
    var q := SetCell(p, i, c);
    forall k | 0 <= k < PAGE_SIZE ensures p2[k] == q[k] {
      if off <= k < off + LEAF_NODE_VALUE_OFFSET {
        assert c[k - off] == EncodeInt32(key)[k - off];
      } else if off + LEAF_NODE_VALUE_OFFSET <= k < off + LEAF_NODE_CELL_SIZE {
        assert c[k - off] == Serialize(row)[k - off - LEAF_NODE_VALUE_OFFSET];
      }
    }
  }

  /** `*leaf_node_key(node, i) = key` followed by serialize_row into
      leaf_node_value(node, i): together they write the encoded cell. */
  method WriteKeyAndValue(node: array<Byte>, i: int, key: int, value: Row)
    requires node.Length == PAGE_SIZE && IsSlot(i) && IsInt32(key) && IsInt64(value.id)
    modifies node
    ensures node[..] == SetCell(old(node[..]), i, EncodeCell(key, value))
  {
    ghost var p := node[..];
    WriteBytes(node, CellOffset(i) + LEAF_NODE_KEY_OFFSET, EncodeInt32(key));
    WriteBytes(node, CellOffset(i) + LEAF_NODE_VALUE_OFFSET, Serialize(value));
    KeyThenValueIsCell(p, i, key, value);
  }

  /** leaf_node_find's binary search over the keys of one leaf. On a leaf
      with strictly increasing keys it returns the lower bound of the key:
      the slot holding it when present, otherwise the first slot with a
      greater key (num_cells when there is none). */
  method Find(node: array<Byte>, key: int) returns (cellNum: int)
    requires node.Length == PAGE_SIZE && LeafBounded(node[..])
    ensures 0 <= cellNum <= NumCells(node[..])
    ensures StrictlyIncreasing(Keys(node[..])) ==> cellNum == LowerBound(Keys(node[..]), key)
    ensures StrictlyIncreasing(Keys(node[..])) ==>
      (key in Keys(node[..]) <==> cellNum < NumCells(node[..]) && KeyAt(node[..], cellNum) == key)
  {
    ghost var ks := Keys(node[..]);
    ghost var sorted := StrictlyIncreasing(ks);
    var numCells := NumCells(node[..]);
    var minIndex, onePastMaxIndex := 0, numCells;
    while onePastMaxIndex != minIndex
      invariant 0 <= minIndex <= onePastMaxIndex <= numCells
      invariant sorted ==> forall j :: 0 <= j < minIndex ==> ks[j] < key
      invariant sorted ==> forall j :: onePastMaxIndex <= j < numCells ==> ks[j] > key
      decreases onePastMaxIndex - minIndex
    {
      var index := (minIndex + onePastMaxIndex) / 2;
      var keyAtIndex := KeyAt(node[..], index);
      assert keyAtIndex == ks[index];
      if key == keyAtIndex {
        if sorted {
          LowerBoundUnique(ks, key, index);
          LowerBoundFinds(ks, key);
        }
        return index;
      }
      if key < keyAtIndex {
        onePastMaxIndex := index;
      } else {
        minIndex := index + 1;
      }
    }
    if sorted {
      LowerBoundUnique(ks, key, minIndex);
      LowerBoundFinds(ks, key);
    }
    cellNum := minIndex;
  }

  /** C's `x / 2` on an `int`: the quotient truncated toward zero, so
      `-1 / 2` is 0 (Dafny's own `/` would give -1). */
  function CHalf(x: int): (q: int)
    ensures x >= 0 ==> 0 <= x - 2 * q <= 1
    ensures x < 0 ==> -1 <= x - 2 * q <= 0
  {
    if x >= 0 then x / 2 else -((-x) / 2)
  }

  /** Where one round of leaf_node_find's loop leaves the search. */
  datatype SearchState = Searching(minIndex: int, onePastMaxIndex: int) | Found(index: int)

  /** One round of leaf_node_find's loop as written, for bounds that still
      differ: the midpoint by C division, the key read there, and either
      the slot found or one bound moved to the midpoint. */
  function SearchRoundAsWritten(p: Page, key: int, minIndex: int, onePastMaxIndex: int): (r: SearchState)
    requires IsSlot(CHalf(minIndex + onePastMaxIndex))
    ensures var index := CHalf(minIndex + onePastMaxIndex);
      && (r.Found? <==> KeyAt(p, index) == key)
      && (r.Found? ==> r.index == index)
      && (key > KeyAt(p, index) ==> r == Searching(index + 1, onePastMaxIndex))
      && (key < KeyAt(p, index) ==> r == Searching(minIndex, index))
  {
    var index := CHalf(minIndex + onePastMaxIndex);
    var keyAtIndex := KeyAt(p, index);
    if key == keyAtIndex then Found(index)
    else if key < keyAtIndex then Searching(minIndex, index)
    else Searching(index + 1, onePastMaxIndex)
  }

  /** On a count of -1 and a key above the one in slot 0, the search as
      written never stops: the first round moves to bounds (1, -1), and
      from there every round reads slot 0 again and lands on (1, -1),
      whose bounds still differ. */
  lemma AsWrittenSearchLoopsOnNegativeCount(p: Page, key: int)
    requires NumCells(p) == -1 && key > KeyAt(p, 0)
    ensures SearchRoundAsWritten(p, key, 0, NumCells(p)) == Searching(1, -1)
    ensures SearchRoundAsWritten(p, key, 1, -1) == Searching(1, -1)
  {
    assert CHalf(0 + -1) == 0;
    assert CHalf(1 + -1) == 0;
  }

  /** The loop of leaf_node_insert: for i from n down to from + 1, slot i
      receives a copy of slot i - 1, so slots from..n - 1 move up by one
      and slot `from` keeps its old bytes. */
  method ShiftCellsUp(node: array<Byte>, from: int, n: int)
    requires node.Length == PAGE_SIZE && 0 <= from <= n < LEAF_NODE_MAX_CELLS
    modifies node
    ensures Header(node[..]) == old(Header(node[..])) && Tail(node[..]) == old(Tail(node[..]))
    ensures forall j :: 0 <= j <= from ==> Slots(node[..])[j] == old(Slots(node[..]))[j]
    ensures forall j :: from < j <= n ==> Slots(node[..])[j] == old(Slots(node[..]))[j - 1]
    ensures forall j :: n < j < LEAF_NODE_MAX_CELLS ==> Slots(node[..])[j] == old(Slots(node[..]))[j]
  {
    ghost var s0 := Slots(node[..]);
    ghost var sl := s0;
    var i := n;
    while i > from
      invariant from <= i <= n
      invariant Header(node[..]) == old(Header(node[..])) && Tail(node[..]) == old(Tail(node[..]))
      invariant Slots(node[..]) == sl && ShiftedUpTo(s0, sl, i, n)
    {
      var c := CellAt(node[..], i - 1);
      ShiftStep(s0, sl, i, n);
      WriteCell(node, i, c);
      sl := sl[i := c];
      i := i - 1;
    }
  }

  /** The slots once the shift loop has copied every slot above i down to
      n + 1: slots up to i are as in s0, slots i + 1 to n hold their lower
      neighbour from s0, and slots above n are as in s0. */
  ghost predicate ShiftedUpTo(s0: seq<CellBytes>, sl: seq<CellBytes>, i: int, n: int)
  {
    && |s0| == |sl| == LEAF_NODE_MAX_CELLS && 0 <= i <= n < LEAF_NODE_MAX_CELLS
    && (forall j :: 0 <= j <= i ==> sl[j] == s0[j])
    && (forall j :: i < j <= n ==> sl[j] == s0[j - 1])
    && (forall j :: n < j < LEAF_NODE_MAX_CELLS ==> sl[j] == s0[j])
  }

  /** Copying slot i - 1 into slot i moves the loop one slot down. */
  lemma ShiftStep(s0: seq<CellBytes>, sl: seq<CellBytes>, i: int, n: int)
    requires ShiftedUpTo(s0, sl, i, n) && i > 0
    ensures ShiftedUpTo(s0, sl[i := sl[i - 1]], i - 1, n)
  {
    assert sl[i - 1] == s0[i - 1];
  }

  /** Setting the count and then writing a cell leaves the bytes before the
      count, the tail and every other slot as they were, and the count set. */
  lemma CountThenCell(p: Page, n: int, i: int, c: CellBytes)
    requires IsInt32(n) && IsSlot(i)
    ensures var q := SetCell(SetNumCells(p, n), i, c);
      && NumCells(q) == n
      && q[..LEAF_NODE_NUM_CELLS_OFFSET] == p[..LEAF_NODE_NUM_CELLS_OFFSET]
      && Slots(q) == Slots(p)[i := c] && Tail(q) == Tail(p)
  {
    var p2 := SetNumCells(p, n);
    var q := SetCell(p2, i, c);
    assert q[LEAF_NODE_NUM_CELLS_OFFSET..LEAF_NODE_HEADER_SIZE]
        == Header(q)[LEAF_NODE_NUM_CELLS_OFFSET..LEAF_NODE_HEADER_SIZE];
    assert p2[LEAF_NODE_NUM_CELLS_OFFSET..LEAF_NODE_HEADER_SIZE]
        == Header(p2)[LEAF_NODE_NUM_CELLS_OFFSET..LEAF_NODE_HEADER_SIZE];
    assert q[..LEAF_NODE_NUM_CELLS_OFFSET] == Header(q)[..LEAF_NODE_NUM_CELLS_OFFSET];
    assert p2[..LEAF_NODE_NUM_CELLS_OFFSET] == Header(p2)[..LEAF_NODE_NUM_CELLS_OFFSET];
  }

  /** The slots after the shift and the new cell, read up to the new count,
      are the old cells with the new one inserted at cellNum. */
  lemma ShiftedSlots(s0: seq<CellBytes>, s1: seq<CellBytes>, n: int, cellNum: int, c: CellBytes)
    requires |s0| == |s1| == LEAF_NODE_MAX_CELLS && 0 <= cellNum <= n < LEAF_NODE_MAX_CELLS
    requires forall j :: 0 <= j <= cellNum ==> s1[j] == s0[j]
    requires forall j :: cellNum < j <= n ==> s1[j] == s0[j - 1]
    requires forall j :: n < j < LEAF_NODE_MAX_CELLS ==> s1[j] == s0[j]
    ensures s1[cellNum := c][..n + 1] == Insert(s0[..n], cellNum, c)
    ensures s1[cellNum := c][n + 1..] == s0[n + 1..]
  {
    var l, r := s1[cellNum := c][..n + 1], Insert(s0[..n], cellNum, c);
    forall j | 0 <= j < |l| ensures l[j] == r[j] {
    }
  }

  /** The page work of leaf_node_insert: a full leaf is refused (the source
      exits there); otherwise the cells from cellNum on move up one slot,
      the count goes up by one and the key and row are written at cellNum. */
  method InsertCell(node: array<Byte>, cellNum: int, key: int, value: Row) returns (ok: bool)
    requires node.Length == PAGE_SIZE && 0 <= NumCells(node[..])
    requires 0 <= cellNum <= NumCells(node[..])
    requires IsInt32(key) && IsInt64(value.id)
    modifies node
    ensures ok <==> old(NumCells(node[..])) < LEAF_NODE_MAX_CELLS
    ensures !ok ==> node[..] == old(node[..])
    ensures ok ==> NumCells(node[..]) == old(NumCells(node[..])) + 1 && LeafBounded(node[..])
    ensures ok ==> Cells(node[..]) == Insert(old(Cells(node[..])), cellNum, EncodeCell(key, value))
    ensures ok ==> node[..LEAF_NODE_NUM_CELLS_OFFSET] == old(node[..LEAF_NODE_NUM_CELLS_OFFSET])
    ensures ok ==> Slots(node[..])[NumCells(node[..])..] == old(Slots(node[..]))[NumCells(node[..])..]
    ensures ok ==> Tail(node[..]) == old(Tail(node[..]))
    ensures ok && FitsLayout(value) ==>
      Entries(node[..]) == Insert(old(Entries(node[..])), cellNum, Entry(key, value))
  {
    var numCells := NumCells(node[..]);
    if numCells >= LEAF_NODE_MAX_CELLS {
      return false;
    }
    ghost var p0 := node[..];
    if cellNum < numCells {
      ShiftCellsUp(node, cellNum, numCells);
    }
    ghost var p1 := node[..];
    SetNumCellsOf(node, numCells + 1);
    WriteKeyAndValue(node, cellNum, key, value);
    var c := EncodeCell(key, value);
    CountThenCell(p1, numCells + 1, cellNum, c);
    ShiftedSlots(Slots(p0), Slots(p1), numCells, cellNum, c);
    assert p0[..LEAF_NODE_NUM_CELLS_OFFSET] == Header(p0)[..LEAF_NODE_NUM_CELLS_OFFSET];
    assert p1[..LEAF_NODE_NUM_CELLS_OFFSET] == Header(p1)[..LEAF_NODE_NUM_CELLS_OFFSET];
    if FitsLayout(value) {
      DecodeCellsInsert(Cells(p0), cellNum, c);
      DecodeEncodeCell(key, value);
    }
    ok := true;
  }

  /** Logical cell i of the split: the new cell at cellNum, the old cell
      i - 1 above it and the old cell i below it. */
  function SplitSource(slots: seq<CellBytes>, i: int, cellNum: int, cell: CellBytes): CellBytes
    requires |slots| == LEAF_NODE_MAX_CELLS && 0 <= i <= LEAF_NODE_MAX_CELLS && 0 <= cellNum <= LEAF_NODE_MAX_CELLS
  {
    if i == cellNum then cell else if i > cellNum then slots[i - 1] else slots[i]
  }

  /** One pass of the split loop: cell i goes to slot i % LEFT_SPLIT_COUNT
      of the page chosen by i, and the other page is left alone. */
  method MoveCell(oldNode: array<Byte>, newNode: array<Byte>, i: int, cellNum: int, key: int, value: Row)
    requires oldNode.Length == PAGE_SIZE && newNode.Length == PAGE_SIZE && oldNode != newNode
    requires 0 <= i <= LEAF_NODE_MAX_CELLS && 0 <= cellNum <= LEAF_NODE_MAX_CELLS
    requires IsInt32(key) && IsInt64(value.id)
    modifies oldNode, newNode
    ensures Header(oldNode[..]) == old(Header(oldNode[..])) && Tail(oldNode[..]) == old(Tail(oldNode[..]))
    ensures Header(newNode[..]) == old(Header(newNode[..])) && Tail(newNode[..]) == old(Tail(newNode[..]))
    ensures i >= LEAF_NODE_LEFT_SPLIT_COUNT ==>
      && Slots(newNode[..]) == old(Slots(newNode[..]))[i - LEAF_NODE_LEFT_SPLIT_COUNT :=
           SplitSource(old(Slots(oldNode[..])), i, cellNum, EncodeCell(key, value))]
      && oldNode[..] == old(oldNode[..])
    ensures i < LEAF_NODE_LEFT_SPLIT_COUNT ==>
      && Slots(oldNode[..]) == old(Slots(oldNode[..]))[i :=
           SplitSource(old(Slots(oldNode[..])), i, cellNum, EncodeCell(key, value))]
      && newNode[..] == old(newNode[..])
  {
    var destinationNode := if i >= LEAF_NODE_LEFT_SPLIT_COUNT then newNode else oldNode;
    SplitIndex(i);
    var indexWithinNode := i % LEAF_NODE_LEFT_SPLIT_COUNT;
    if i == cellNum {
      WriteKeyAndValue(destinationNode, indexWithinNode, key, value);
    } else if i > cellNum {
      WriteCell(destinationNode, indexWithinNode, CellAt(oldNode[..], i - 1));
    } else {
      WriteCell(destinationNode, indexWithinNode, CellAt(oldNode[..], i));
    }
  }

  /** The cell the split loop writes for the new entry as written: the row
      is serialised at the start of the cell, over the key slot, and the
      last bytes of whatever the cell held before stay in place. */
  function SplitCellAsWritten(stale: CellBytes, row: Row): (c: CellBytes)
    requires IsInt64(row.id)
    ensures c[..ROW_SIZE] == Serialize(row)
    ensures c[..LEAF_NODE_VALUE_OFFSET] == Serialize(row)[ID_OFFSET..ID_OFFSET + LEAF_NODE_VALUE_OFFSET]
    ensures c[ROW_SIZE..] == stale[ROW_SIZE..]
  {
    Serialize(row) + stale[ROW_SIZE..]
  }

  /** As written, a row whose username has one to four characters reads
      back from its split cell with an empty username: the value field
      starts four bytes into the serialised row, where the username's
      padding already lies. */
  lemma AsWrittenSplitCellLosesUsername(stale: CellBytes, row: Row)
    requires FitsLayout(row) && 0 < |row.username| <= 4
    ensures DecodeCell(SplitCellAsWritten(stale, row)).row.username == []
    ensures DecodeCell(SplitCellAsWritten(stale, row)).row != row
  {
    var bs := Serialize(row);
    var c := SplitCellAsWritten(stale, row);
    assert bs[USERNAME_OFFSET + 4] == 0 by {
      SerializeLayout(row);
      assert bs[USERNAME_OFFSET + 4] == bs[USERNAME_OFFSET..EMAIL_OFFSET][4];
    }
    var read := c[LEAF_NODE_VALUE_OFFSET..][USERNAME_OFFSET..EMAIL_OFFSET];
    assert read[0] == c[12] == bs[12];
    assert DecodeCell(c).row.username == CString(read);
  }

  /** How far the split loop has got once every logical cell above i has
      been placed: so and sn are the old and new page's slots, o0 and n0
      the slots before the loop and ins the logical cells. */
  ghost predicate SplitProgress(o0: seq<CellBytes>, n0: seq<CellBytes>, ins: seq<CellBytes>,
                                so: seq<CellBytes>, sn: seq<CellBytes>, i: int)
    requires |o0| == |n0| == |so| == |sn| == LEAF_NODE_MAX_CELLS && |ins| == LEAF_NODE_MAX_CELLS + 1
  {
    && (forall j :: LEAF_NODE_LEFT_SPLIT_COUNT <= j <= LEAF_NODE_MAX_CELLS && i < j ==>
         sn[j - LEAF_NODE_LEFT_SPLIT_COUNT] == ins[j])
    && (forall k :: LEAF_NODE_RIGHT_SPLIT_COUNT <= k < LEAF_NODE_MAX_CELLS ==> sn[k] == n0[k])
    && (forall j :: 0 <= j < LEAF_NODE_LEFT_SPLIT_COUNT && i < j ==> so[j] == ins[j])
    && (forall j :: 0 <= j < LEAF_NODE_MAX_CELLS && (j <= i || j >= LEAF_NODE_LEFT_SPLIT_COUNT) ==> so[j] == o0[j])
  }

  /** One pass of the loop, placing logical cell i, keeps the progress. */
  lemma SplitStep(o0: seq<CellBytes>, n0: seq<CellBytes>, cellNum: int, cell: CellBytes,
                  so: seq<CellBytes>, sn: seq<CellBytes>, so': seq<CellBytes>, sn': seq<CellBytes>, i: int)
    requires |o0| == |n0| == |so| == |sn| == |so'| == |sn'| == LEAF_NODE_MAX_CELLS
    requires 0 <= i <= LEAF_NODE_MAX_CELLS && 0 <= cellNum <= LEAF_NODE_MAX_CELLS
    requires SplitProgress(o0, n0, Insert(o0, cellNum, cell), so, sn, i)
    requires i >= LEAF_NODE_LEFT_SPLIT_COUNT ==>
      sn' == sn[i - LEAF_NODE_LEFT_SPLIT_COUNT := SplitSource(so, i, cellNum, cell)] && so' == so
    requires i < LEAF_NODE_LEFT_SPLIT_COUNT ==> so' == so[i := SplitSource(so, i, cellNum, cell)] && sn' == sn
    ensures SplitProgress(o0, n0, Insert(o0, cellNum, cell), so', sn', i - 1)
  {
    LayoutConstants();
    var ins := Insert(o0, cellNum, cell);
    assert SplitSource(so, i, cellNum, cell) == ins[i];
  }

  /** When the loop is done the two pages hold the logical cells. */
  lemma SplitDone(o0: seq<CellBytes>, n0: seq<CellBytes>, ins: seq<CellBytes>, so: seq<CellBytes>, sn: seq<CellBytes>)
    requires |o0| == |n0| == |so| == |sn| == LEAF_NODE_MAX_CELLS && |ins| == LEAF_NODE_MAX_CELLS + 1
    requires SplitProgress(o0, n0, ins, so, sn, -1)
    ensures so[..LEAF_NODE_LEFT_SPLIT_COUNT] + sn[..LEAF_NODE_RIGHT_SPLIT_COUNT] == ins
    ensures so[LEAF_NODE_LEFT_SPLIT_COUNT..] == o0[LEAF_NODE_LEFT_SPLIT_COUNT..]
    ensures sn[LEAF_NODE_RIGHT_SPLIT_COUNT..] == n0[LEAF_NODE_RIGHT_SPLIT_COUNT..]
  {
    LayoutConstants();
    var l := so[..LEAF_NODE_LEFT_SPLIT_COUNT] + sn[..LEAF_NODE_RIGHT_SPLIT_COUNT];
    assert forall j :: 0 <= j < |ins| ==> l[j] == ins[j];
  }

  /** The loop of leaf_node_split_and_insert: for i from MAX_CELLS down to 0,
      logical cell i of the full leaf with the new cell inserted at cellNum
      is written to slot i % LEFT_SPLIT_COUNT of the new page when
      i >= LEFT_SPLIT_COUNT and of the old page otherwise. The new cell is
      written as key and row, as leaf_node_insert writes it. */
  method Redistribute(oldNode: array<Byte>, newNode: array<Byte>, cellNum: int, key: int, value: Row)
    requires oldNode.Length == PAGE_SIZE && newNode.Length == PAGE_SIZE && oldNode != newNode
    requires 0 <= cellNum <= LEAF_NODE_MAX_CELLS && IsInt32(key) && IsInt64(value.id)
    modifies oldNode, newNode
    ensures Header(oldNode[..]) == old(Header(oldNode[..])) && Tail(oldNode[..]) == old(Tail(oldNode[..]))
    ensures Header(newNode[..]) == old(Header(newNode[..])) && Tail(newNode[..]) == old(Tail(newNode[..]))
    ensures Slots(oldNode[..])[..LEAF_NODE_LEFT_SPLIT_COUNT] + Slots(newNode[..])[..LEAF_NODE_RIGHT_SPLIT_COUNT]
         == Insert(old(Slots(oldNode[..])), cellNum, EncodeCell(key, value))
    ensures Slots(oldNode[..])[LEAF_NODE_LEFT_SPLIT_COUNT..] == old(Slots(oldNode[..]))[LEAF_NODE_LEFT_SPLIT_COUNT..]
    ensures Slots(newNode[..])[LEAF_NODE_RIGHT_SPLIT_COUNT..] == old(Slots(newNode[..]))[LEAF_NODE_RIGHT_SPLIT_COUNT..]
  {
    ghost var o0, n0 := Slots(oldNode[..]), Slots(newNode[..]);
    ghost var cell := EncodeCell(key, value);
    var i := LEAF_NODE_MAX_CELLS;
    while i >= 0
      invariant -1 <= i <= LEAF_NODE_MAX_CELLS
      invariant Header(oldNode[..]) == old(Header(oldNode[..])) && Tail(oldNode[..]) == old(Tail(oldNode[..]))
      invariant Header(newNode[..]) == old(Header(newNode[..])) && Tail(newNode[..]) == old(Tail(newNode[..]))
      invariant SplitProgress(o0, n0, Insert(o0, cellNum, cell), Slots(oldNode[..]), Slots(newNode[..]), i)
    {
      ghost var so, sn := Slots(oldNode[..]), Slots(newNode[..]);
      MoveCell(oldNode, newNode, i, cellNum, key, value);
      SplitStep(o0, n0, cellNum, cell, so, sn, Slots(oldNode[..]), Slots(newNode[..]), i);
      i := i - 1;
    }
    SplitDone(o0, n0, Insert(o0, cellNum, cell), Slots(oldNode[..]), Slots(newNode[..]));
  }

  /** The page work of leaf_node_split_and_insert on a full leaf: the new
      page becomes an empty leaf, the MAX_CELLS + 1 cells (the old ones with
      the new one inserted at cellNum) are spread over the two pages, the
      old page keeps the left LEFT_SPLIT_COUNT and the new page receives the
      right RIGHT_SPLIT_COUNT. */
  method SplitInto(oldNode: array<Byte>, newNode: array<Byte>, cellNum: int, key: int, value: Row)
    requires oldNode.Length == PAGE_SIZE && newNode.Length == PAGE_SIZE && oldNode != newNode
    requires NumCells(oldNode[..]) == LEAF_NODE_MAX_CELLS && 0 <= cellNum <= LEAF_NODE_MAX_CELLS
    requires IsInt32(key) && IsInt64(value.id)
    modifies oldNode, newNode
    ensures NumCells(oldNode[..]) == LEAF_NODE_LEFT_SPLIT_COUNT && NumCells(newNode[..]) == LEAF_NODE_RIGHT_SPLIT_COUNT
    ensures NodeType(newNode[..]) == NODE_LEAF
    ensures Cells(oldNode[..]) + Cells(newNode[..]) == Insert(old(Cells(oldNode[..])), cellNum, EncodeCell(key, value))
    ensures FitsLayout(value) ==>
      Entries(oldNode[..]) + Entries(newNode[..]) == Insert(old(Entries(oldNode[..])), cellNum, Entry(key, value))
    ensures oldNode[..LEAF_NODE_NUM_CELLS_OFFSET] == old(oldNode[..LEAF_NODE_NUM_CELLS_OFFSET])
    ensures newNode[IS_ROOT_OFFSET..LEAF_NODE_NUM_CELLS_OFFSET] == old(newNode[IS_ROOT_OFFSET..LEAF_NODE_NUM_CELLS_OFFSET])
    ensures Slots(oldNode[..])[LEAF_NODE_LEFT_SPLIT_COUNT..] == old(Slots(oldNode[..]))[LEAF_NODE_LEFT_SPLIT_COUNT..]
    ensures Slots(newNode[..])[LEAF_NODE_RIGHT_SPLIT_COUNT..] == old(Slots(newNode[..]))[LEAF_NODE_RIGHT_SPLIT_COUNT..]
    ensures Tail(oldNode[..]) == old(Tail(oldNode[..])) && Tail(newNode[..]) == old(Tail(newNode[..]))
  {
    LayoutConstants();
    ghost var o0, n0 := oldNode[..], newNode[..];
    InitializeLeafNode(newNode);
    ghost var n1 := newNode[..];
    Redistribute(oldNode, newNode, cellNum, key, value);
    ghost var o2, n2 := oldNode[..], newNode[..];
    SetNumCellsOf(oldNode, LEAF_NODE_LEFT_SPLIT_COUNT);
    SetNumCellsOf(newNode, LEAF_NODE_RIGHT_SPLIT_COUNT);
    SplitPages(o0, n0, n1, o2, n2, oldNode[..], newNode[..], cellNum, EncodeCell(key, value));
    if FitsLayout(value) {
      SplitEntries(o0, oldNode[..], newNode[..], cellNum, key, value);
    }
  }

  /** The cells of the two pages after the split read back as the old
      entries with the new key and row inserted at cellNum. */
  lemma SplitEntries(o0: Page, o3: Page, n3: Page, cellNum: int, key: int, value: Row)
    requires LeafBounded(o0) && LeafBounded(o3) && LeafBounded(n3) && 0 <= cellNum <= NumCells(o0)
    requires IsInt32(key) && FitsLayout(value)
    requires Cells(o3) + Cells(n3) == Insert(Cells(o0), cellNum, EncodeCell(key, value))
    ensures Entries(o3) + Entries(n3) == Insert(Entries(o0), cellNum, Entry(key, value))
  {
    DecodeEncodeCell(key, value);
    DecodeCellsInsert(Cells(o0), cellNum, EncodeCell(key, value));
    assert DecodeCells(Cells(o3) + Cells(n3)) == Entries(o3) + Entries(n3);
  }

  /** The pages the split goes through, read as cells and header fields:
      o0 and n0 before, n1 after initialize_leaf_node, o2 and n2 after the
      loop, o3 and n3 after the counts are set. */
  lemma SplitPages(o0: Page, n0: Page, n1: Page, o2: Page, n2: Page, o3: Page, n3: Page, cellNum: int, c: CellBytes)
    requires NumCells(o0) == LEAF_NODE_MAX_CELLS && 0 <= cellNum <= LEAF_NODE_MAX_CELLS
    requires n1 == InitializeLeaf(n0)
    requires Header(o2) == Header(o0) && Tail(o2) == Tail(o0)
    requires Header(n2) == Header(n1) && Tail(n2) == Tail(n1)
    requires Slots(o2)[..LEAF_NODE_LEFT_SPLIT_COUNT] + Slots(n2)[..LEAF_NODE_RIGHT_SPLIT_COUNT] == Insert(Slots(o0), cellNum, c)
    requires Slots(o2)[LEAF_NODE_LEFT_SPLIT_COUNT..] == Slots(o0)[LEAF_NODE_LEFT_SPLIT_COUNT..]
    requires Slots(n2)[LEAF_NODE_RIGHT_SPLIT_COUNT..] == Slots(n1)[LEAF_NODE_RIGHT_SPLIT_COUNT..]
    requires o3 == SetNumCells(o2, LEAF_NODE_LEFT_SPLIT_COUNT) && n3 == SetNumCells(n2, LEAF_NODE_RIGHT_SPLIT_COUNT)
    ensures NumCells(o3) == LEAF_NODE_LEFT_SPLIT_COUNT && NumCells(n3) == LEAF_NODE_RIGHT_SPLIT_COUNT
    ensures NodeType(n3) == NODE_LEAF
    ensures Cells(o3) + Cells(n3) == Insert(Cells(o0), cellNum, c)
    ensures o3[..LEAF_NODE_NUM_CELLS_OFFSET] == o0[..LEAF_NODE_NUM_CELLS_OFFSET]
    ensures n3[IS_ROOT_OFFSET..LEAF_NODE_NUM_CELLS_OFFSET] == n0[IS_ROOT_OFFSET..LEAF_NODE_NUM_CELLS_OFFSET]
    ensures Slots(o3)[LEAF_NODE_LEFT_SPLIT_COUNT..] == Slots(o0)[LEAF_NODE_LEFT_SPLIT_COUNT..]
    ensures Slots(n3)[LEAF_NODE_RIGHT_SPLIT_COUNT..] == Slots(n0)[LEAF_NODE_RIGHT_SPLIT_COUNT..]
    ensures Tail(o3) == Tail(o0) && Tail(n3) == Tail(n0)
  {
    LayoutConstants();
    assert Cells(o0) == Slots(o0);
    assert NodeType(n2) == NodeType(n1) by {
      assert n2[..NODE_TYPE_SIZE] == Header(n2)[..NODE_TYPE_SIZE];
      assert n1[..NODE_TYPE_SIZE] == Header(n1)[..NODE_TYPE_SIZE];
    }
    assert o3[..LEAF_NODE_NUM_CELLS_OFFSET] == o2[..LEAF_NODE_NUM_CELLS_OFFSET];
    assert o2[..LEAF_NODE_NUM_CELLS_OFFSET] == Header(o2)[..LEAF_NODE_NUM_CELLS_OFFSET];
    assert o0[..LEAF_NODE_NUM_CELLS_OFFSET] == Header(o0)[..LEAF_NODE_NUM_CELLS_OFFSET];
    assert n3[IS_ROOT_OFFSET..LEAF_NODE_NUM_CELLS_OFFSET] == n2[..LEAF_NODE_NUM_CELLS_OFFSET][IS_ROOT_OFFSET..];
    assert n2[IS_ROOT_OFFSET..LEAF_NODE_NUM_CELLS_OFFSET] == Header(n2)[IS_ROOT_OFFSET..LEAF_NODE_NUM_CELLS_OFFSET];
    assert n1[IS_ROOT_OFFSET..LEAF_NODE_NUM_CELLS_OFFSET] == Header(n1)[IS_ROOT_OFFSET..LEAF_NODE_NUM_CELLS_OFFSET];
  }
}
