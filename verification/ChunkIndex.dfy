/** What a chunk file means: variable-length encoded pages laid end to end, located by an
    array of end offsets, then an optional unencoded tail. */
module ChunkIndex {
  import opened Bytes

  /** The abstract value of a chunk file. */
  datatype Store = Store(pages: seq<seq<Byte>>, tail: seq<Byte>)

  /** Offset of the first byte of page `i`; for `i == |offsets|`, of the tail. */
  function Start(offsets: seq<int>, i: nat): int
    requires i <= |offsets|
  {
    if i == 0 then 0 else offsets[i - 1]
  }

  function End(offsets: seq<int>): int {
    Start(offsets, |offsets|)
  }

  /** Encoded length of page `i`. */
  function Width(offsets: seq<int>, i: nat): int
    requires i < |offsets|
  {
    offsets[i] - Start(offsets, i)
  }

  ghost predicate Ordered(offsets: seq<int>) {
    && (forall i :: 0 <= i < |offsets| ==> 0 <= offsets[i])
    && (forall i, j :: 0 <= i <= j < |offsets| ==> offsets[i] <= offsets[j])
  }

  /** The index fits a file of `size` bytes. */
  ghost predicate Indexed(offsets: seq<int>, size: nat) {
    Ordered(offsets) && End(offsets) <= size
  }

  function Page(file: seq<Byte>, offsets: seq<int>, i: nat): seq<Byte>
    requires Indexed(offsets, |file|) && i < |offsets|
  {
    file[Start(offsets, i)..offsets[i]]
  }

  ghost function View(file: seq<Byte>, offsets: seq<int>): (s: Store)
    requires Indexed(offsets, |file|)
  {
    Store(seq(|offsets|, i requires 0 <= i < |offsets| => Page(file, offsets, i)), file[End(offsets)..])
  }

  // ---------------------------------------------------------------- replacing a page

  /** One overlapping memmove of everything from `from` onwards to `from + dist`, in a file
      that grows if it must. */
  ghost function MovedUp(file: seq<Byte>, from: nat, dist: nat): (r: seq<Byte>)
    requires from <= |file|
  {
    Overwrite(file, from + dist, file[from..])
  }

  /** The same towards the front, then cut to its new length. */
  ghost function MovedDown(file: seq<Byte>, from: nat, dist: nat): (r: seq<Byte>)
    requires dist <= from <= |file|
  {
    file[..from - dist] + file[from..]
  }

  /** Every end offset from page `p` on moved by `d`. */
  ghost function Shifted(offsets: seq<int>, p: nat, d: int): (r: seq<int>)
    ensures |r| == |offsets|
    ensures forall i :: 0 <= i < |r| ==> r[i] == offsets[i] + if p <= i then d else 0
  {
    seq(|offsets|, i requires 0 <= i < |offsets| => offsets[i] + if p <= i then d else 0)
  }

  /** The file after its remainder behind page `p` has been moved to make the page
      exactly `n` bytes long; the page's own bytes are not yet rewritten. */
  ghost function Opened(file: seq<Byte>, offsets: seq<int>, p: nat, n: nat): (r: seq<Byte>)
    requires Indexed(offsets, |file|) && p < |offsets|
  {
    var had := Width(offsets, p);
    if n < had then MovedDown(file, offsets[p], had - n)
    else if had < n then MovedUp(file, offsets[p], n - had)
    else file
  }

  ghost function Spliced(file: seq<Byte>, offsets: seq<int>, p: nat, page: seq<Byte>): seq<Byte>
    requires Indexed(offsets, |file|) && p < |offsets|
  {
    file[..Start(offsets, p)] + page + file[offsets[p]..]
  }

  /** Opening a gap of the right size and writing the page into it splices the page in. */
  lemma SpliceByOpening(file: seq<Byte>, offsets: seq<int>, p: nat, page: seq<Byte>)
    requires Indexed(offsets, |file|) && p < |offsets|
    ensures Overwrite(Opened(file, offsets, p, |page|), Start(offsets, p), page)
         == Spliced(file, offsets, p, page)
  {
    var made := Overwrite(Opened(file, offsets, p, |page|), Start(offsets, p), page);
    var want := Spliced(file, offsets, p, page);
    assert |made| == |want|;
    forall i | 0 <= i < |want|
      ensures made[i] == want[i]
    {
      if i < Start(offsets, p) {
        assert made[i] == file[i];
      } else if i >= Start(offsets, p) + |page| {
        assert want[i] == file[i - |page| + Width(offsets, p)];
      }
    }
  }

  lemma SplicedIndexed(file: seq<Byte>, offsets: seq<int>, p: nat, page: seq<Byte>)
    requires Indexed(offsets, |file|) && p < |offsets|
    ensures var d := |page| - Width(offsets, p);
            var file' := Spliced(file, offsets, p, page);
            Indexed(Shifted(offsets, p, d), |file'|) && |file'| == |file| + d
  {
    var d := |page| - Width(offsets, p);
    var offsets' := Shifted(offsets, p, d);
    forall i, j | 0 <= i <= j < |offsets|
      ensures 0 <= offsets'[i] <= offsets'[j]
    {
      assert offsets[i] <= offsets[j];
      assert i < p ==> offsets[i] <= Start(offsets, p);
    }
  }

  lemma SplicedPage(file: seq<Byte>, offsets: seq<int>, p: nat, page: seq<Byte>, i: nat)
    requires Indexed(offsets, |file|) && p < |offsets| && i < |offsets|
    ensures var file' := Spliced(file, offsets, p, page);
            var offsets' := Shifted(offsets, p, |page| - Width(offsets, p));
            && 0 <= Start(offsets', i) <= offsets'[i] <= |file'|
            && file'[Start(offsets', i)..offsets'[i]] == if i == p then page else Page(file, offsets, i)
  {
    var file' := Spliced(file, offsets, p, page);
    var offsets' := Shifted(offsets, p, |page| - Width(offsets, p));
    assert |file'| == |file| + |page| - Width(offsets, p);
    if i == p {
      assert file'[Start(offsets, p)..Start(offsets, p) + |page|] == page;
    } else if i < p {
      assert offsets[i] <= Start(offsets, p);
      assert file'[Start(offsets, i)..offsets[i]] == Page(file, offsets, i);
    } else {
      assert offsets[p] <= Start(offsets, i) <= offsets[i];
      assert file'[Start(offsets', i)..offsets'[i]] == Page(file, offsets, i);
    }
  }

  lemma SplicedPages(file: seq<Byte>, offsets: seq<int>, p: nat, page: seq<Byte>)
    requires Indexed(offsets, |file|) && p < |offsets|
    requires Indexed(Shifted(offsets, p, |page| - Width(offsets, p)), |Spliced(file, offsets, p, page)|)
    ensures View(Spliced(file, offsets, p, page), Shifted(offsets, p, |page| - Width(offsets, p))).pages
         == View(file, offsets).pages[p := page]
  {
    var offsets' := Shifted(offsets, p, |page| - Width(offsets, p));
    var got := View(Spliced(file, offsets, p, page), offsets').pages;
    var want := View(file, offsets).pages[p := page];
    forall i | 0 <= i < |offsets|
      ensures got[i] == want[i]
    {
      SplicedPage(file, offsets, p, page, i);
    }
  }

  /** Splicing a page in changes that page and nothing else: every other page and the
      tail keep their bytes although their offsets move, and the file's length changes by
      exactly the difference of the two encoded lengths. */
  lemma ReplaceView(file: seq<Byte>, offsets: seq<int>, p: nat, page: seq<Byte>)
    requires Indexed(offsets, |file|) && p < |offsets|
    ensures var s := View(file, offsets);
            var d := |page| - |s.pages[p]|;
            var file' := Spliced(file, offsets, p, page);
            var offsets' := Shifted(offsets, p, d);
            && Indexed(offsets', |file'|)
            && View(file', offsets') == s.(pages := s.pages[p := page])
            && |file'| == |file| + d
  {
    SplicedIndexed(file, offsets, p, page);
    SplicedPages(file, offsets, p, page);
    var d := |page| - Width(offsets, p);
    assert Spliced(file, offsets, p, page)[End(Shifted(offsets, p, d))..] == file[End(offsets)..];
  }

  // ---------------------------------------------------------------- writing at the end

  /** The tail that is left when a page of `n` bytes is written over its beginning. */
  function LeftOver(tail: seq<Byte>, n: nat): seq<Byte> {
    if n < |tail| then tail[n..] else []
  }

  lemma AppendView(file: seq<Byte>, offsets: seq<int>, page: seq<Byte>)
    requires Indexed(offsets, |file|)
    ensures var s := View(file, offsets);
            var file' := Overwrite(file, End(offsets), page);
            var offsets' := offsets + [End(offsets) + |page|];
            && Indexed(offsets', |file'|)
            && View(file', offsets') == Store(s.pages + [page], LeftOver(s.tail, |page|))
  {
    var s := View(file, offsets);
    var file' := Overwrite(file, End(offsets), page);
    var offsets' := offsets + [End(offsets) + |page|];
    var s' := View(file', offsets');
    assert |s'.pages| == |s.pages| + 1;
    forall i | 0 <= i < |offsets'|
      ensures s'.pages[i] == (s.pages + [page])[i]
    {
      assert |s'.pages[i]| == |(s.pages + [page])[i]|;
    }
    assert s'.tail == LeftOver(s.tail, |page|);
  }

  lemma TailView(file: seq<Byte>, offsets: seq<int>, tail: seq<Byte>)
    requires Indexed(offsets, |file|)
    ensures var file' := Resize(Overwrite(file, End(offsets), tail), End(offsets) + |tail|);
            && Indexed(offsets, |file'|)
            && View(file', offsets) == View(file, offsets).(tail := tail)
  {
    var file' := Resize(Overwrite(file, End(offsets), tail), End(offsets) + |tail|);
    var s, s' := View(file, offsets), View(file', offsets);
    forall i | 0 <= i < |offsets|
      ensures s'.pages[i] == s.pages[i]
    {
    }
    assert s'.pages == s.pages;
    assert s'.tail == tail;
  }
}
