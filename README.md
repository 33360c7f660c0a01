# A single-leaf page engine, modelled in Dafny

This project models the storage layer of a small SQLite-style database
written in C (`main.c`). The engine keeps one table of rows
`(id, username, email)` in a file of 4096-byte pages. Page 0 is the
root of a B-tree that, in this version, never grows beyond a single leaf.
A leaf page holds a 16-byte header followed by up to 13 cells. Each cell
is a 4-byte key followed by a 297-byte serialised row.

The model covers:

- **Bytes** (`bytes.dfy`): little-endian two's-complement codecs for C
  `int` and `ssize_t`, and the truncating conversion of a wider integer
  to `int`. This is how the page buffer holds every integer field.
- **RowCodec** (`row_codec.dfy`): `serialize_row` / `deserialize_row` over
  the 297-byte row layout, with `strncpy` padding and the C-string reading
  of the two text fields.
- **Statement** (`statement.dfy`): the checks of `prepare_insert` over the
  tokens `strtok` returns, including `atoi`.
- **NodeLayout** (`node_layout.dfy`): the layout constants and the leaf
  accessors (`leaf_node_cell`, `leaf_node_num_cells`, `leaf_node_key`,
  `leaf_node_value`, `get/set_node_type`, `initialize_leaf_node`) as pure
  functions on a page value. The writers (`set_node_type`, the store
  through `leaf_node_num_cells`, `initialize_leaf_node` and the memcpy of
  a cell) also exist as methods on a page buffer (`array<Byte>`), each
  specified by its pure function. It also lifts a page to its abstract
  sequence of `(key, row)` entries.
- **Leaf** (`leaf.dfy`): the binary search of `leaf_node_find`, the
  shift-and-write of `leaf_node_insert` and the redistribution loop of
  `leaf_node_split_and_insert`. All three are methods over page buffers,
  proved against the entry sequence.
- **CursorSpec** (`cursor_spec.dfy`): the cursor as a two-state machine
  (cell number, end-of-table flag) and the scan `execute_select` runs.
- **PageCache** (`pager.dfy`): the pager as a class. It holds an array of
  100 optional page buffers, a `num_pages` high-water mark and the file
  contents as a byte sequence. It models `pager_open`, the lazy `get_page`
  and `get_unused_page_num`.
- **Tables** (`tables.dfy`): the `Table` and `Cursor` records as classes,
  `db_open`, `table_start`, `table_find`, `cursor_advance`,
  `cursor_value`, and the two executors `execute_insert` and
  `execute_select`.

The database file is a parameter: the byte sequence it holds when it is
opened. While a table is open the engine never writes the file (only
`db_close` does), so every read in the model sees those bytes. The `exit`
calls of the source become failure results: `null` from `PagerOpen` and
`DbOpen`, `null` from `TableFind` on a non-leaf root, and `false` from
`LeafNodeInsert` and `InsertCell` on a full leaf. Where the caller's
input decides the outcome, they become preconditions instead.

`int` is 4 bytes and `ssize_t` is 8 bytes, both little-endian, so the
derived constants are:

- common header 12 bytes; leaf header 16 bytes;
- cell 301 bytes; `LEAF_NODE_MAX_CELLS` = 4080 / 301 = 13;
- split counts 7 and 7.

The code disagrees with the engine's evident design in six places,
listed under "## Findings". In each place the model uses the corrected
behaviour. The code as written is captured by a separate as-written member,
together with a lemma that exhibits the discrepancy.

## Model

| member | source | states |
|---|---|---|
| Bytes.DecodeEncodeInt32 | main.c:258-270 | an `int` stored in the page by a pointer cast reads back as the same `int` |
| Bytes.EncodeDecodeInt32 | main.c:265-270 | every four bytes are the encoding of the `int` they read as, so reading and rewriting a field leaves it unchanged |
| Bytes.DecodeEncodeInt64 | main.c:79-86 | the 8-byte `ssize_t` id memcpy'd into a row reads back as the same id |
| Bytes.DecodeEncodeUnsigned | main.c:79-86 | decoding the n-byte little-endian encoding of a number gives the number |
| Bytes.EncodeDecodeUnsigned | main.c:79-86 | encoding the value of any byte string gives back the byte string |
| Bytes.ToInt32 | main.c:698 | narrowing the row id to the `int` key gives an `int` congruent to the id modulo 2^32, equal to it when it already fits |
| RowCodec.Deserialize | main.c:84-89 | deserialize_row gives an 8-byte id and strings no longer than their fields |
| RowCodec.CString | main.c:84-89 | a char array read as a C string is its prefix up to (not including) the first NUL, and it contains no NUL |
| RowCodec.StrNCpyPads | main.c:80-81 | strncpy of a NUL-free string shorter than the field is the string followed by NULs up to the field width |
| RowCodec.CStringOfPadded | main.c:87-88 | a NUL-free string followed by at least one NUL reads back as itself |
| RowCodec.LayoutIsContiguous | main.c:65-71 | the id, username and email fields follow each other at offsets 0, 8 and 41, and `ROW_SIZE` = 297 is their total |
| RowCodec.Serialize | main.c:77-82 | serialize_row writes exactly `ROW_SIZE` bytes |
| RowCodec.SerializeLayout | main.c:77-82 | the id lands at bytes 0-7, the username at 8-40 and the email at 41-296, each string NUL-padded to the end of its field |
| RowCodec.RoundTrip | main.c:77-89 | deserialising a serialised row gives back the same id, username and email, for every row whose strings fit their columns |
| RowCodec.SerializeInjective | main.c:77-82 | two rows that fit the layout serialise to the same bytes only if they are equal |
| Statement.Atoi | main.c:604 | atoi yields a C `int` |
| Statement.AtoiDecimal | main.c:604 | atoi reads the decimal spelling of every non-negative `int` back as that number |
| Statement.PrepareInsert | main.c:589-623 | fewer than four tokens is a syntax error; a negative id is refused; a username over 32 or an email over 255 characters is too long; success exactly when the row is valid, and the row is then the parsed id with the two strings |
| Statement.ValidRowFits | main.c:604-615 | every row prepare_insert accepts fits the serialised layout, and its id survives the narrowing to the `int` key |
| Statement.PrepareAcceptsValidRows | main.c:589-623 | every valid row whose strings are tokens is accepted from "insert id username email" and comes out unchanged |
| NodeLayout.LayoutConstants | main.c:206-236 | headers are 12 and 16 bytes, a cell 301; 13 cells fit in the 4080 bytes after the header and a 14th would not; the split counts are 7 and 7, sum to 14 and the left one is the larger or equal |
| NodeLayout.SplitIndex | main.c:653-663 | `i % LEFT_SPLIT_COUNT` is `i` on the left half and `i - LEFT_SPLIT_COUNT`, a valid right-half slot, on the right |
| NodeLayout.CellsDisjoint | main.c:238-241 | with the multiplied offset the 13 cell slots follow the header, do not overlap and end inside the page |
| NodeLayout.AsWrittenCellsOverlap | main.c:238-241 | with the offset as written, consecutive cells start one byte apart and overlap |
| NodeLayout.Slots | main.c:238-241 | the page read as its 13 cell slots, slot i being the 301 bytes at leaf_node_cell(i) |
| NodeLayout.Keys | main.c:248-251 | the keys of a leaf in slot order are what leaf_node_key reads for each occupied slot |
| NodeLayout.Cells | main.c:243-246 | a leaf's occupied cells number exactly its cell count |
| NodeLayout.KeysAreEntryKeys | main.c:248-256 | the key leaf_node_key reads is the key of the decoded cell, for every occupied slot |
| NodeLayout.CellOffset | main.c:238-241 | with the multiplied offset, every slot starts after the 16-byte header and ends by byte 3929 |
| NodeLayout.CellOffsetAsWritten | main.c:240 | the offset as written (number added, not multiplied) differs from the intended offset for every cell number |
| NodeLayout.CellAt | main.c:238-256 | the bytes after a cell's 4-byte key are exactly what leaf_node_value points to |
| NodeLayout.KeyAtIsCellKey | main.c:248-251 | leaf_node_key reads the first four bytes of the cell, so it is the key of the decoded cell |
| NodeLayout.NumCells | main.c:243-246 | the cell count field reads as a C `int` |
| NodeLayout.KeyAt | main.c:248-251 | a key read through leaf_node_key is a C `int` |
| NodeLayout.ValueAt | main.c:253-256 | leaf_node_value points to exactly `ROW_SIZE` = 297 bytes |
| NodeLayout.NodeType | main.c:265-270 | get_node_type reads a C `int` |
| NodeLayout.Entries | main.c:238-256 | the abstract leaf has one entry per counted cell, entry j being cell j decoded as key and row |
| NodeLayout.DecodeEncodeCell | main.c:476-478 | a cell written as key then serialised row decodes to that key and row |
| NodeLayout.SetCell | main.c:238-241 | writing a whole cell changes that slot and leaves the header, every other slot and the unused tail unchanged |
| NodeLayout.CellWriteReads | main.c:238-241 | after a write into slot i, slot i reads as the new cell and every other slot as before |
| NodeLayout.SetNodeType | main.c:258-263 | set_node_type changes the node type and no other header field, slot or byte of the tail |
| NodeLayout.SetNumCells | main.c:243-246 | writing the cell count changes only the count |
| NodeLayout.InitializeLeaf | main.c:272-276 | initialize_leaf_node makes a leaf with no entries and keeps the is-root and parent fields, the slots and the tail |
| NodeLayout.PageDeterminedByParts | main.c:206-236 | header, slots and tail partition the page: two pages that agree on them are equal |
| NodeLayout.WriteCell | main.c:470-471 | the memcpy of a cell into a page buffer is SetCell on its contents |
| NodeLayout.SetNodeTypeOf | main.c:258-263 | set_node_type on a page buffer is SetNodeType on its contents |
| NodeLayout.SetNumCellsOf | main.c:475 | the count store on a page buffer is SetNumCells on its contents |
| NodeLayout.InitializeLeafNode | main.c:272-276 | initialize_leaf_node on a page buffer is InitializeLeaf on its contents |
| Leaf.LowerBound | main.c:369-395 | the lower bound of a key is a slot in `[0, n]` with every key before it smaller and the key at it (if any) at least as large |
| Leaf.LowerBoundUnique | main.c:369-395 | on strictly increasing keys, only one slot splits the keys into smaller and not smaller ones |
| Leaf.LowerBoundFinds | main.c:369-395 | on strictly increasing keys, a key is present exactly when its lower bound holds it; when absent, every key from the lower bound on is larger |
| Leaf.Find | main.c:360-396 | the binary search returns a slot in `[0, num_cells]`; on a leaf with strictly increasing keys it is the lower bound, and the slot holds the key exactly when the key is present; the loop ends because `one_past_max_index - min_index` decreases |
| Leaf.CHalf | main.c:374 | C's halving truncates toward zero: the remainder is 0 or 1 for a non-negative sum and 0 or -1 for a negative one |
| Leaf.SearchRoundAsWritten | main.c:372-391 | one round of the search as written, with C division: found exactly when the key at the midpoint matches, and otherwise the lower or upper bound moves past or to the midpoint |
| Leaf.AsWrittenSearchLoopsOnNegativeCount | main.c:370-391 | on a count of -1 and a key above slot 0's, the first round gives bounds (1, -1), and every later round reads slot 0 and gives (1, -1) again, so the loop never ends |
| Leaf.Insert | main.c:465-478 | inserting at slot i keeps the cells before i, puts the new one at i and moves the rest up one |
| Leaf.InsertKeepsSorted | main.c:453-479 | inserting an absent key at its lower bound keeps strictly increasing keys strictly increasing |
| Leaf.InsertByKeyKeepsOrder | main.c:688-713 | inserting an entry with an absent key by key keeps the keys strictly increasing, adds one entry, adds exactly that entry and loses none |
| Leaf.DecodeCellsInsert | main.c:465-478 | decoding commutes with inserting a cell |
| Leaf.WriteKeyAndValue | main.c:476-478 | storing the key and then serialising the row into slot i writes exactly the encoded cell into slot i |
| Leaf.ShiftCellsUp | main.c:465-473 | the descending memcpy loop moves the cells from slot `from` to `n - 1` up one slot and leaves the header, the slots up to `from`, the slots above `n` and the tail unchanged |
| Leaf.InsertCell | main.c:453-479 | on a full leaf nothing changes and the call fails; otherwise the count rises by one, the cells become the old cells with the new key and row inserted at the cursor's slot, and the common header, the free slots and the tail are unchanged |
| Leaf.MoveCell | main.c:651-678 | one round of the split loop writes into slot `i % LEFT` of the page `i` selects the logical cell `i`: the new cell, or the old cell below or at `i` |
| Leaf.SplitStep | main.c:649-679 | each round of the split loop, from the top index down, places one more logical cell and keeps the pages' other slots |
| Leaf.SplitDone | main.c:649-679 | after the last round, the old page's left slots followed by the new page's right slots are the fourteen logical cells |
| Leaf.Redistribute | main.c:649-679 | the split loop leaves the left half of the cells in the old page and the right half in the new one, with the new cell at the cursor's position, and leaves both headers, tails and unused slots as they were |
| Leaf.SplitInto | main.c:647-685 | after the split of a full leaf the old page holds 7 cells and the new page, now a leaf, holds 7; the old cells followed by the new ones are the original cells with the new cell inserted at the cursor's slot; the old page's header before the count, its free slots and its tail are unchanged |
| Leaf.SplitEntries | main.c:649-685 | the two pages' cells after the split decode to the old entries with the new key and row inserted at the cursor |
| Leaf.SplitCellAsWritten | main.c:665-668 | as written, the split's new cell starts with the serialised row, so its key slot holds the first four bytes of the id, and its last four bytes stay as before |
| Leaf.AsWrittenSplitCellLosesUsername | main.c:665-668 | as written, a row with a 1- to 4-character username reads back from its split cell with an empty username, so not as the row inserted |
| CursorSpec.Start | main.c:398-411 | table_start puts the cursor on cell 0, at the end exactly when the root has no cells |
| CursorSpec.Advance | main.c:433-443 | cursor_advance moves one cell further and sets the end flag once the cell number reaches the count; it never clears it |
| CursorSpec.StepsFromStart | main.c:398-443 | after k advances from table_start the cursor is on cell k, at the end exactly when k has reached the count |
| CursorSpec.ScanVisitsInOrder | main.c:715-730 | a scan from table_start reads cells 0 to n-1, each once and in order, and then stands at the end |
| CursorSpec.VisitedAsWritten | main.c:719-725 | as written, every round of the select loop reads the same cell: for a cursor not at the end, every one of the `fuel` rounds reads its cell number; at the end it reads nothing |
| CursorSpec.SelectAsWrittenNeverEnds | main.c:719-725 | with `cursor_advance;` not called, a table with a row makes the loop read cell 0 in every round |
| PageCache.GetPageGuardAsWritten | main.c:129 | as written, the bound check admits every page number of the page table and also the one number, 100, just past it |
| PageCache.AsWrittenGuardAdmitsPastEnd | main.c:129-134 | the bound check as written lets page 100 through although the page table has no slot 100 |
| PageCache.Pager.constructor | main.c:107-124 | a new pager holds the file, `num_pages` = file length / 4096, and no resident page |
| PageCache.Pager.ReadPage | main.c:149-158 | the read fills the buffer with the file's page when the page lies in the file, and reads nothing past the end |
| PageCache.Pager.GetPage | main.c:127-169 | a hit returns the resident buffer and changes nothing; a miss allocates a fresh buffer, fills it from the file when the page lies in it, caches it and no other slot; `num_pages` becomes max(old, n + 1) |
| PageCache.Pager.GetUnusedPageNum | main.c:630-633 | `num_pages` is at least the file's page count, is above every resident page and is itself not resident |
| PageCache.PagerOpen | main.c:91-125 | opening fails exactly when the file length is not a whole number of pages; otherwise `num_pages` is length / 4096 and no page is resident |
| Tables.DbOpen | main.c:295-311 | opening fails exactly when the file is unaligned; the table, pager, page table and every buffer in it are newly allocated; an empty file gets page 0 as an empty leaf; otherwise the root is the file's first page, not yet loaded |
| Tables.LeafNodeFind | main.c:360-396 | leaf_node_find loads the page, leaves its bytes as they were and returns a cursor on it at the binary search's slot |
| Tables.TableStart | main.c:398-411 | table_start returns a cursor on cell 0 of the root, at the end exactly when the root has no cells, and leaves the root unchanged |
| Tables.TableFind | main.c:417-431 | on a leaf root, a cursor on the root whose slot is in `[0, num_cells]`; on a leaf with strictly increasing keys that slot is the key's lower bound and holds the key exactly when it is present; on a non-leaf root, no cursor; the root is unchanged |
| Tables.CursorAdvance | main.c:433-443 | cursor_advance on a cursor's page is the Advance step with that page's cell count, and changes no page |
| Tables.CursorValue | main.c:445-451 | cursor_value returns the 297 bytes of the cursor's cell after the key, which deserialise to the row of that entry |
| Tables.LeafNodeInsert | main.c:453-479 | leaf_node_insert at the cursor fails on a full leaf; otherwise the count rises by one, the cells become the old cells with the encoded one at the cursor's slot and, for a row that fits the layout, the entries become the old entries with the new one at the cursor's slot |
| Tables.LeafNodeSplitAndInsert | main.c:635-686 | the split takes page `num_pages` as a new leaf; the old page ends up with 7 cells and the new one with 7, together the original cells with the new one inserted at the cursor; no other page slot changes; the old page keeps its node type, its header before the count, its free slots and its tail |
| Tables.ExecuteInsert | main.c:688-713 | TABLE_FULL exactly when the root is full, checked first; DUPLICATE_KEY only when the id narrowed to `int` (ToInt32) is already a key, and on a bounded root with strictly increasing keys exactly then; neither changes the root; on success the count rises by one and, on sorted keys, the entries are the old ones with the row inserted by key and stay sorted; the node type and the header before the count never change, so inserts compose |
| Tables.InsertIntoRoot | main.c:697-712 | on a bounded leaf root with room, DUPLICATE_KEY (root unchanged) exactly when the narrowed id is already a key of a sorted leaf; otherwise the count rises by one, the row is inserted by key and the keys stay sorted; the node type, the header before the count and the page table are unchanged |
| Tables.TypeFromPrefix | main.c:265-270 | the node type lies in the header before the cell count, so two pages that agree there have the same type |
| Tables.InsertedByKey | main.c:699-712 | inserting at table_find's slot for an absent key is inserting by key, and keeps the keys strictly increasing |
| Tables.ExecuteInsertAsWritten | main.c:688-713 | on a bounded leaf with strictly increasing keys, execute_insert as written never changes the page, reports TABLE_FULL exactly on a full root and DUPLICATE_KEY exactly when the narrowed id is a key of a root with room |
| Tables.AsWrittenInsertLosesRow | main.c:699-712 | execute_insert as written reports success for a new key on a leaf with room, yet the key is not in the leaf afterwards |
| Tables.ExecuteSelect | main.c:715-730 | select returns the rows of the root's entries in slot order and leaves the root unchanged |
| Tables.ScanRows | main.c:719-725 | the select loop, with the advance called, returns the rows of the cells the cursor machine visits from table_start (CursorSpec.Visited), which are every cell of the cursor's page in slot order, and changes no page |
| Tables.VisitedRowsAreRows | main.c:715-730 | the cells visited from table_start are all valid slots, and their rows in visiting order are the leaf's rows in slot order |
| Tables.SelectInIdOrder | main.c:715-730 | on a leaf with strictly increasing keys whose rows carry their keys as ids, select's rows come in ascending id order |

## Left out

- File I/O (`open`, `lseek`, `read`, `write`, `close`): the file is the
  byte sequence it held when opened, given to `PagerOpen` and `DbOpen`.
  A failed `read` and the error exit after it are not modelled.
- `db_close` and `pager_flush`: they write pages back and free the
  buffers. `db_close` on this path also compares with `==` where it means
  `=` (main.c:327) and frees buffers twice. This is memory management and
  file output, which the model leaves out.
- `malloc` and `free`: a fresh page buffer past the end of the file has
  unspecified contents. None of the `ensures` say anything about them,
  although Dafny allocates it zero-filled.
- The REPL (`main`, `read_input`, the input buffer functions),
  `do_meta_command`, `print_row`, `print_constants` and `print_leaf_node`:
  console I/O.
- `prepare_statement` and `execute_statement`: the dispatch in `main` uses
  `sscanf` in `prepare_statement`, which checks neither the id's sign nor
  the string lengths, and `prepare_insert` is never called. That library's
  parsing is not part of this model; the checks `prepare_insert` would
  apply are modelled instead, over the tokens `strtok` returns.
- Internal-node search, parent pointers and root splitting: the source
  does not implement them. `TableFind` returns no cursor on a non-leaf
  root where the source exits, and the split fills neither the new leaf's
  is-root and parent fields nor a parent.
- `num_rows`, `ROWS_PER_PAGE` and `TABLE_MAX_ROWS`: the source never uses
  them.
- `leaf_node_split_and_insert` is never called in the source, for two
  reasons. `leaf_node_insert` exits on a full leaf instead of splitting.
  And `leaf_node_insert` is itself never called, because `execute_insert`
  does not call it (see the findings). `Tables.LeafNodeSplitAndInsert`
  models the split on its own.
- The `off_t` file length narrowed to `int` in the pager: files beyond
  2^31 bytes are not modelled.
- Tables.LeafNodeFind: the source leaves `end_of_table` unset in the
  cursor it returns; the model sets it to false.
- Tables.TableFind, Tables.LeafNodeFind and Leaf.Find: require that the
  leaf's cell count is within 0 to 13. The source reads whatever count
  the page holds. With a count above 13 its binary search reads keys
  past the last slot. With a negative count such as -1 it never stops,
  because C's division truncates toward zero (see the findings). The
  model's search terminates only because the bound excludes these counts.
- Tables.ExecuteInsert: requires a non-negative cell count and a leaf
  root whenever the root has room. On a negative count the source's
  binary search can loop forever (see the findings), and `table_find`
  exits on a non-leaf root.
- Tables.ExecuteSelect: requires that the root's cell count is within 0 to
  13. With a larger count the source reads past the last slot.
- Tables.LeafNodeSplitAndInsert: requires `num_pages` below 100. Otherwise
  `get_page` would index past the page table (see the findings).
- PageCache.Pager.GetPage: requires `page_num < TABLE_MAX_PAGES`, the
  bound the check at main.c:129 evidently intends (see the findings).
- Statement.PrepareInsert: `strcpy` into the row is modelled by taking the
  token as the field's contents, and `strtok` by taking the tokens as
  given.
- Tables.ExecuteSelect also returns the rows it would print, instead of
  printing them.

## Findings

| source | as written | input that shows it | evidently intended | confidence | as-written member | corrected member |
|---|---|---|---|---|---|---|
| main.c:240 | `leaf_node_cell` returns `node + LEAF_NODE_HEADER_SIZE + cell_num + LEAF_NODE_CELL_SIZE` | cells 0 and 1 start at bytes 317 and 318, so writing either overwrites the other | `node + LEAF_NODE_HEADER_SIZE + cell_num * LEAF_NODE_CELL_SIZE` | high; not executed | NodeLayout.AsWrittenCellsOverlap | NodeLayout.CellsDisjoint |
| main.c:129 | `get_page` refuses only `page_num > TABLE_MAX_PAGES` | page number 100 passes and indexes `pages[100]` of a 100-slot array | `page_num >= TABLE_MAX_PAGES` refused | high; not executed | PageCache.AsWrittenGuardAdmitsPastEnd | PageCache.Pager.GetPage |
| main.c:667 | the split serialises the new row at the start of its cell and never writes the key | a row whose username has 1 to 4 characters reads back from that cell with an empty username | key at the cell start and the row after it, as `leaf_node_insert` does at main.c:476-478 | high; not executed | Leaf.AsWrittenSplitCellLosesUsername | Leaf.SplitInto |
| main.c:710 | `execute_insert` returns success without calling `leaf_node_insert` | any new id on a leaf with room: success is reported and the key is still absent | insert the row at the cursor `table_find` returned | high; not executed | Tables.AsWrittenInsertLosesRow | Tables.ExecuteInsert |
| main.c:370-391 | `leaf_node_find` searches with `while (one_past_max_index != min_index)` from the count stored in the page, and C's `/` truncates toward zero | count -1 (bytes 12-15 all 0xFF) and a key above slot 0's: bounds go (0, -1), then (1, -1) forever | searching only a count within 0 to 13, as every page this engine writes holds; on such counts the loop ends | medium; not executed | Leaf.AsWrittenSearchLoopsOnNegativeCount | Leaf.Find |
| main.c:724 | the select loop's body names `cursor_advance` without calling it | a table with one row: the loop reads cell 0 forever | call `cursor_advance(cursor)` | high; not executed | CursorSpec.SelectAsWrittenNeverEnds | CursorSpec.ScanVisitsInOrder |
