/** What a file means when it is read through cached pages on top of a lower file: the
    pure side of the lofs page cache. */
module PageCache {
  import opened Bytes

  /** PAGE_CACHE_SIZE. */
  const PAGE: nat := 4096

  datatype Page = Page(data: seq<Byte>, uptodate: bool, dirty: bool)

  type Pages = map<nat, Page>

  /** Byte `p` of the file as lofs shows it: from its page if that is up to date, from the
      lower file otherwise. */
  ghost function ByteAt(lower: seq<Byte>, pages: Pages, p: nat): Byte
    requires Sized(pages) && p < |lower|
  {
    if p / PAGE in pages && pages[p / PAGE].uptodate then pages[p / PAGE].data[p % PAGE] else lower[p]
  }

  ghost predicate Sized(pages: Pages) {
    forall i :: i in pages ==> |pages[i].data| == PAGE
  }

  /** The flat file. */
  ghost function FlatOf(lower: seq<Byte>, pages: Pages): (flat: seq<Byte>)
    requires Sized(pages)
    ensures |flat| == |lower|
    ensures forall p :: 0 <= p < |flat| ==> flat[p] == ByteAt(lower, pages, p)
  {
    seq(|lower|, p requires 0 <= p < |lower| => ByteAt(lower, pages, p))
  }

  /** One page agrees with the lower file: only up-to-date pages are dirty, clean ones
      hold the lower file's bytes, and beyond end of file there are zeros. */
  ghost predicate PageAgrees(lower: seq<Byte>, i: nat, page: Page) {
    && |page.data| == PAGE
    && (page.dirty ==> page.uptodate)
    && (page.uptodate ==> forall o :: 0 <= o < PAGE ==>
          if i * PAGE + o < |lower| then page.dirty || page.data[o] == lower[i * PAGE + o] else page.data[o] == 0)
  }

  ghost predicate Coherent(lower: seq<Byte>, pages: Pages) {
    forall i :: i in pages ==> PageAgrees(lower, i, pages[i])
  }

  /** What `lofs_read_lower_page` puts into a page. */
  function PageOf(lower: seq<Byte>, i: nat): (data: seq<Byte>)
    ensures |data| == PAGE
    ensures forall o :: 0 <= o < PAGE ==> data[o] == if i * PAGE + o < |lower| then lower[i * PAGE + o] else 0
  {
    Resize(if i * PAGE <= |lower| then lower[i * PAGE..] else [], PAGE)
  }

  lemma LoadKeeps(lower: seq<Byte>, pages: Pages, i: nat)
    requires Coherent(lower, pages) && Sized(pages)
    requires i in pages ==> !pages[i].uptodate
    ensures var pages' := pages[i := Page(PageOf(lower, i), true, false)];
            Coherent(lower, pages') && FlatOf(lower, pages') == FlatOf(lower, pages)
  {
    var pages' := pages[i := Page(PageOf(lower, i), true, false)];
    forall p | 0 <= p < |lower|
      ensures ByteAt(lower, pages', p) == ByteAt(lower, pages, p)
    {
      assert p == (p / PAGE) * PAGE + p % PAGE;
    }
  }

  lemma EvictKeeps(lower: seq<Byte>, pages: Pages, i: nat)
    requires Coherent(lower, pages) && Sized(pages)
    requires i in pages && !pages[i].dirty
    ensures Coherent(lower, pages - {i}) && FlatOf(lower, pages - {i}) == FlatOf(lower, pages)
  {
    forall p | 0 <= p < |lower|
      ensures ByteAt(lower, pages - {i}, p) == ByteAt(lower, pages, p)
    {
      assert p == (p / PAGE) * PAGE + p % PAGE;
    }
  }

  /** Data copied into a page. */
  function Patched(page: Page, from: nat, data: seq<Byte>): (r: Page)
    requires |page.data| == PAGE && from + |data| <= PAGE
    ensures |r.data| == PAGE && r.uptodate == page.uptodate && r.dirty == page.dirty
    ensures forall o :: 0 <= o < PAGE ==> r.data[o] == if from <= o < from + |data| then data[o - from] else page.data[o]
  {
    page.(data := page.data[..from] + data + page.data[from + |data|..])
  }

  /** The flat effect of one `write_end`: the data is written.  A copy that moved nothing
      still writes the page's prefix, and so extends a file that ends before `pos`. */
  ghost function WriteEffect(flat: seq<Byte>, pos: nat, data: seq<Byte>): (r: seq<Byte>)
    ensures |r| == if data == [] && pos % PAGE == 0 then |flat| else Max(|flat|, pos + |data|)
    ensures forall i :: 0 <= i < |r| ==>
      r[i] == if pos <= i < pos + |data| then data[i - pos] else if i < |flat| then flat[i] else 0
  {
    if data == [] && pos % PAGE > 0 && pos > |flat| then Resize(flat, pos) else Overwrite(flat, pos, data)
  }

  /** Writing the whole prefix of an up-to-date page down to the lower file shows as
      writing just the new data. */
  lemma WriteThrough(lower: seq<Byte>, pages: Pages, i: nat, from: nat, pos: nat, data: seq<Byte>)
    requires Coherent(lower, pages) && Sized(pages) && pos == i * PAGE + from
    requires i in pages && pages[i].uptodate && from + |data| <= PAGE && from < PAGE
    ensures var page := Patched(pages[i], from, data);
            var lower' := Overwrite(lower, i * PAGE, page.data[..from + |data|]);
            var pages' := pages[i := page];
            && Coherent(lower', pages') && Sized(pages')
            && FlatOf(lower', pages') == WriteEffect(FlatOf(lower, pages), pos, data)
  {
    var page := Patched(pages[i], from, data);
    var lower' := Overwrite(lower, i * PAGE, page.data[..from + |data|]);
    var pages' := pages[i := page];
    WriteThroughCoherent(lower, pages, i, from, data);
    var flat, flat' := FlatOf(lower, pages), FlatOf(lower', pages');
    var want := WriteEffect(flat, pos, data);
    assert |flat'| == |want|;
    forall p | 0 <= p < |flat'|
      ensures flat'[p] == want[p]
    {
      assert p == (p / PAGE) * PAGE + p % PAGE;
      if p >= |lower| {
        assert flat'[p] == ByteAt(lower', pages', p);
      }
    }
  }

  lemma WriteThroughCoherent(lower: seq<Byte>, pages: Pages, i: nat, from: nat, data: seq<Byte>)
    requires Coherent(lower, pages) && Sized(pages)
    requires i in pages && pages[i].uptodate && from + |data| <= PAGE && from < PAGE
    ensures var page := Patched(pages[i], from, data);
            var lower' := Overwrite(lower, i * PAGE, page.data[..from + |data|]);
            Coherent(lower', pages[i := page])
  {
    var page := Patched(pages[i], from, data);
    var lower' := Overwrite(lower, i * PAGE, page.data[..from + |data|]);
    forall j | j in pages
      ensures PageAgrees(lower', j, pages[i := page][j])
    {
      if j != i {
        OtherPageAgrees(lower, i, page.data[..from + |data|], j, pages[j]);
      }
    }
  }

  /** A write inside page `i`, or up to its end, leaves every other page in agreement. */
  lemma OtherPageAgrees(lower: seq<Byte>, i: nat, data: seq<Byte>, j: nat, page: Page)
    requires PageAgrees(lower, j, page) && i != j && |data| <= PAGE
    ensures PageAgrees(Overwrite(lower, i * PAGE, data), j, page)
  {
    assert j < i ==> j * PAGE + PAGE <= i * PAGE;
    assert j > i ==> i * PAGE + PAGE <= j * PAGE;
  }

  // ------------------------------------------------------- mmap stores and write-back

  /** A store through a mapping: the page changes and becomes dirty. */
  lemma StoreShows(lower: seq<Byte>, pages: Pages, p: nat, b: Byte)
    requires Coherent(lower, pages) && Sized(pages)
    requires p < |lower| && p / PAGE in pages && pages[p / PAGE].uptodate
    ensures var pages' := pages[p / PAGE := Patched(pages[p / PAGE], p % PAGE, [b]).(dirty := true)];
            && Coherent(lower, pages') && Sized(pages')
            && FlatOf(lower, pages') == FlatOf(lower, pages)[p := b]
  {
    var i: nat := p / PAGE;
    var pages' := pages[i := Patched(pages[i], p % PAGE, [b]).(dirty := true)];
    var flat' := FlatOf(lower, pages');
    assert p == i * PAGE + p % PAGE;
    forall q | 0 <= q < |lower|
      ensures flat'[q] == FlatOf(lower, pages)[p := b][q]
    {
      assert q == (q / PAGE) * PAGE + q % PAGE;
    }
  }

  /** How many bytes of page `i` lie inside a file of `size` bytes, as `lofs_writepage`
      computes it. */
  function WritebackLength(size: nat, i: nat): (n: nat)
    ensures n == Min(PAGE, Max(size - i * PAGE, 0))
  {
    var maxIndex := size / PAGE;
    if i > maxIndex then 0 else if i == maxIndex then size % PAGE else PAGE
  }

  /** Writing a page back leaves it clean, changes nothing that can be read, and never
      the lower file's size. */
  lemma WritebackKeeps(lower: seq<Byte>, pages: Pages, i: nat)
    requires Coherent(lower, pages) && Sized(pages) && i in pages && pages[i].uptodate
    ensures var n := WritebackLength(|lower|, i);
            var lower' := Overwrite(lower, i * PAGE, pages[i].data[..n]);
            var pages' := pages[i := pages[i].(dirty := false)];
            && |lower'| == |lower|
            && Coherent(lower', pages') && Sized(pages')
            && FlatOf(lower', pages') == FlatOf(lower, pages)
  {
    var n := WritebackLength(|lower|, i);
    var lower' := Overwrite(lower, i * PAGE, pages[i].data[..n]);
    var pages' := pages[i := pages[i].(dirty := false)];
    forall j | j in pages
      ensures PageAgrees(lower', j, pages'[j])
    {
      if j != i {
        OtherPageAgrees(lower, i, pages[i].data[..n], j, pages[j]);
      }
    }
    forall p | 0 <= p < |lower|
      ensures ByteAt(lower', pages', p) == ByteAt(lower, pages, p)
    {
      assert p == (p / PAGE) * PAGE + p % PAGE;
    }
  }

  /** What is on no dirty page is in the lower file. */
  lemma CleanByte(lower: seq<Byte>, pages: Pages, p: nat)
    requires Coherent(lower, pages) && Sized(pages) && p < |lower|
    requires p / PAGE in pages ==> !pages[p / PAGE].dirty
    ensures FlatOf(lower, pages)[p] == lower[p]
  {
    assert p == (p / PAGE) * PAGE + p % PAGE;
  }

  /** With no dirty page left, the lower file is the flat file. */
  lemma CleanIsFlat(lower: seq<Byte>, pages: Pages)
    requires Coherent(lower, pages) && Sized(pages)
    requires forall i :: i in pages ==> !pages[i].dirty
    ensures FlatOf(lower, pages) == lower
  {
    forall p | 0 <= p < |lower|
      ensures ByteAt(lower, pages, p) == lower[p]
    {
      assert p == (p / PAGE) * PAGE + p % PAGE;
    }
  }

  // ----------------------------------------------------------------------- truncation

  /** What `vmtruncate` leaves in the cache: the pages before the new end of file, the one
      it falls into zeroed from there on. */
  ghost function Truncated(pages: Pages, size: nat): Pages
    requires Sized(pages)
  {
    map i | i in pages && i * PAGE < size ::
      if i == size / PAGE
      then pages[i].(data := pages[i].data[..size % PAGE] + Zeros(PAGE - size % PAGE))
      else pages[i]
  }

  lemma TruncateShows(lower: seq<Byte>, pages: Pages, size: nat)
    requires Coherent(lower, pages) && Sized(pages)
    ensures var lower' := Resize(lower, size);
            var pages' := if size < |lower| then Truncated(pages, size) else pages;
            && Coherent(lower', pages') && Sized(pages')
            && FlatOf(lower', pages') == Resize(FlatOf(lower, pages), size)
  {
    var lower' := Resize(lower, size);
    var pages' := if size < |lower| then Truncated(pages, size) else pages;
    forall j | j in pages'
      ensures PageAgrees(lower', j, pages'[j])
    {
      assert PageAgrees(lower, j, pages[j]);
    }
    forall p | 0 <= p < size
      ensures ByteAt(lower', pages', p) == Resize(FlatOf(lower, pages), size)[p]
    {
      assert p == (p / PAGE) * PAGE + p % PAGE;
    }
  }

  // --------------------------------------------------------- the unused page offset

  /** `lofs_write_lower_page_segment` adds its page offset to the file position but not to
      the address it writes from.  It writes the segment it is asked for, whatever the
      page holds, exactly when that offset is 0 or the segment is empty; its only caller
      passes 0. */
  lemma SegmentExact(lower: seq<Byte>, i: nat, offset: nat, size: nat)
    requires offset + size <= PAGE
    ensures var at := i * PAGE + offset;
      (forall data: seq<Byte> | |data| == PAGE ::
         Overwrite(lower, at, data[..size]) == Overwrite(lower, at, data[offset..offset + size]))
      <==> offset == 0 || size == 0
  {
    var at := i * PAGE + offset;
    if offset > 0 && size > 0 {
      var data: seq<Byte> := seq(PAGE, o requires 0 <= o < PAGE => if o < offset then 1 else 2);
      assert data[..size][0] == 1 && data[offset..offset + size][0] == 2;
      assert Overwrite(lower, at, data[..size])[at] != Overwrite(lower, at, data[offset..offset + size])[at];
    } else {
      forall data: seq<Byte> | |data| == PAGE
        ensures Overwrite(lower, at, data[..size]) == Overwrite(lower, at, data[offset..offset + size])
      {
        assert data[..size] == data[offset..offset + size];
      }
    }
  }

  /** On a clean page, writing the prefix [0, to) has the same effect on the lower file as
      writing only the new bytes [from, to). */
  lemma PrefixSameAsSegment(lower: seq<Byte>, i: nat, page: Page, from: nat, data: seq<Byte>)
    requires PageAgrees(lower, i, page) && page.uptodate && !page.dirty
    requires data != [] && from + |data| <= PAGE
    ensures Overwrite(lower, i * PAGE, Patched(page, from, data).data[..from + |data|])
         == Overwrite(lower, i * PAGE + from, data)
  {
  }
}
