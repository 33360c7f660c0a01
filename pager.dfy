/** The pager: a cache of up to TABLE_MAX_PAGES page buffers over the
    database file, filled lazily by get_page. The file is the sequence of
    bytes it held when it was opened; the engine writes it back only when
    it closes, so while a table is open every read sees those bytes. */
module PageCache {
  import opened Bytes
  import opened NodeLayout

  const TABLE_MAX_PAGES: int := 100

  /** The bound check of get_page as written: it refuses only page numbers
      above TABLE_MAX_PAGES. */
  predicate GetPageGuardAsWritten(pageNum: int): (admitted: bool)
    ensures 0 <= pageNum < TABLE_MAX_PAGES ==> admitted
    ensures 0 <= pageNum ==> (admitted <==> pageNum < TABLE_MAX_PAGES || pageNum == TABLE_MAX_PAGES)
  {
    !(pageNum > TABLE_MAX_PAGES)
  }

  /** As written, page TABLE_MAX_PAGES passes the check although the pages
      array has no slot with that index. */
  lemma AsWrittenGuardAdmitsPastEnd()
    ensures GetPageGuardAsWritten(TABLE_MAX_PAGES)
    ensures !(0 <= TABLE_MAX_PAGES < TABLE_MAX_PAGES)
  {
  }

  /** A file of n whole pages holds page i for every i below n. */
  lemma PageInFile(len: int, i: int)
    requires 0 <= len && len % PAGE_SIZE == 0 && 0 <= i < len / PAGE_SIZE
    ensures 0 <= i * PAGE_SIZE && (i + 1) * PAGE_SIZE <= len
  {
  }

  class Pager {
    /** The contents of the database file. */
    const file: seq<Byte>
    const fileLength: int
    var numPages: int
    const pages: array<array?<Byte>>

    /** The cache is consistent: the file is whole pages, num_pages counts
        at least the file's pages, and each resident page is a page-sized
        buffer of its own whose number lies below num_pages. */
    ghost predicate Valid()
      reads this, pages
    {
      && pages.Length == TABLE_MAX_PAGES
      && fileLength == |file| && fileLength % PAGE_SIZE == 0
      && fileLength / PAGE_SIZE <= numPages
      && (forall i :: 0 <= i < TABLE_MAX_PAGES && pages[i] != null ==> pages[i].Length == PAGE_SIZE && i < numPages)
      && (forall i, j :: 0 <= i < j < TABLE_MAX_PAGES && pages[i] != null ==> pages[i] != pages[j])
    }

    /** pager_open on a file whose length is a whole number of pages: no
        page is resident yet. */
    constructor (contents: seq<Byte>)
      requires |contents| % PAGE_SIZE == 0
      ensures Valid() && fresh(pages)
      ensures file == contents && numPages == |contents| / PAGE_SIZE
      ensures forall i :: 0 <= i < TABLE_MAX_PAGES ==> pages[i] == null
    {
      file := contents;
      fileLength := |contents|;
      numPages := |contents| / PAGE_SIZE;
      pages := new array?<Byte>[TABLE_MAX_PAGES](_ => null);
    }

    /** Page n of the file. */
    function FilePage(n: int): Page
      requires fileLength == |file| && fileLength % PAGE_SIZE == 0 && 0 <= n < fileLength / PAGE_SIZE
    {
      PageInFile(fileLength, n);
      file[n * PAGE_SIZE..(n + 1) * PAGE_SIZE]
    }

    /** What page n reads as: the resident buffer, or else the file's page. */
    ghost function Image(n: int): Page
      requires Valid() && 0 <= n < TABLE_MAX_PAGES
      requires pages[n] != null || n < fileLength / PAGE_SIZE
      reads this, pages, pages[n]
    {
      if pages[n] != null then pages[n][..] else FilePage(n)
    }

    /** Between the two states no slot of the page table other than n has
        changed, and slot n has changed only if it was empty. */
    twostate predicate LoadedOnly(n: int)
      requires 0 <= n < pages.Length
      reads this, pages
    {
      && (forall i :: 0 <= i < pages.Length && i != n ==> pages[i] == old(pages[i]))
      && (old(pages[n]) != null ==> pages[n] == old(pages[n]) && numPages == old(numPages))
    }

    /** The read of get_page: PAGE_SIZE bytes at offset n * PAGE_SIZE, of
        which only those before the end of the file arrive. */
    method ReadPage(page: array<Byte>, n: int)
      requires Valid() && page.Length == PAGE_SIZE && 0 <= n
      modifies page
      ensures n < fileLength / PAGE_SIZE ==> page[..] == FilePage(n)
      ensures n >= fileLength / PAGE_SIZE ==> page[..] == old(page[..])
    {
      var offset := n * PAGE_SIZE;
      forall k | 0 <= k < PAGE_SIZE && offset + k < fileLength {
        page[k] := file[offset + k];
      }
      if n < fileLength / PAGE_SIZE {
        PageInFile(fileLength, n);
        assert forall k :: 0 <= k < PAGE_SIZE ==> page[..][k] == FilePage(n)[k];
      } else {
        assert offset >= fileLength;
      }
    }

    /** get_page: a resident page is returned as it is; otherwise a new
        buffer is allocated, filled from the file when the page lies in it
        (past the end its contents are unspecified), cached, and num_pages
        raised to cover it. */
    method GetPage(pageNum: int) returns (page: array<Byte>)
      requires Valid() && 0 <= pageNum < TABLE_MAX_PAGES
      modifies this, pages
      ensures Valid()
      ensures page == pages[pageNum] && page.Length == PAGE_SIZE
      ensures numPages == if old(numPages) > pageNum then old(numPages) else pageNum + 1
      ensures old(pages[pageNum]) != null ==> page == old(pages[pageNum]) && unchanged(this, pages)
      ensures old(pages[pageNum]) == null ==> fresh(page) && pages[..] == old(pages[..])[pageNum := page]
      ensures old(pages[pageNum]) == null && pageNum < fileLength / PAGE_SIZE ==> page[..] == FilePage(pageNum)
      ensures LoadedOnly(pageNum)
      ensures old(pages[pageNum]) != null || pageNum < fileLength / PAGE_SIZE ==> page[..] == old(Image(pageNum))
    {
      if pages[pageNum] == null {
        // Cache miss: allocate a buffer and load it from the file.
        var newPage := new Byte[PAGE_SIZE];
        var filePages := fileLength / PAGE_SIZE;
        if fileLength % PAGE_SIZE != 0 {
          filePages := filePages + 1;
        }
        if pageNum <= filePages {
          ReadPage(newPage, pageNum);
        }
        pages[pageNum] := newPage;
        if pageNum >= numPages {
          numPages := pageNum + 1;
        }
      }
      page := pages[pageNum];
    }

    /** get_unused_page_num: num_pages, which no resident page has. */
    function GetUnusedPageNum(): (r: int)
      requires Valid()
      reads this, pages
      ensures r >= 0 && r >= fileLength / PAGE_SIZE
      ensures forall i :: 0 <= i < TABLE_MAX_PAGES && pages[i] != null ==> i < r
      ensures r < TABLE_MAX_PAGES ==> pages[r] == null
    {
      numPages
    }
  }

  /** pager_open: a file that is not a whole number of pages is refused
      (the source exits); otherwise a pager with no resident page and
      num_pages = file_length / PAGE_SIZE. */
  method PagerOpen(contents: seq<Byte>) returns (pager: Pager?)
    ensures pager == null <==> |contents| % PAGE_SIZE != 0
    ensures pager != null ==> fresh(pager) && fresh(pager.pages) && pager.Valid()
    ensures pager != null ==> pager.file == contents && pager.numPages == |contents| / PAGE_SIZE
    ensures pager != null ==> forall i :: 0 <= i < TABLE_MAX_PAGES ==> pager.pages[i] == null
  {
    if |contents| % PAGE_SIZE != 0 {
      return null;
    }
    pager := new Pager(contents);
  }
}
