/** A lofs regular file: a page cache, written through by `write` and back by mappings, over
    a lower file.  Every operation is proved against the flat file it stands for. */
module LofsFile {
  import opened Bytes
  import opened PageCache

  /** What a program can do to the file, and what memory pressure can. */
  datatype Op =
    | Read(pos: nat, n: nat)
    | Write(pos: nat, data: seq<Byte>)
    | Store(p: nat, b: Byte)
    | Writepage(i: nat)
    | Truncate(size: nat)
    | Fsync
    | FsyncRange(start: nat, end: nat)
    | Evict(i: nat)

  /** The same on a flat byte file. */
  function Effect(flat: seq<Byte>, op: Op): seq<Byte> {
    match op
    case Write(pos, data) => Overwrite(flat, pos, data)
    case Store(p, b) => if p < |flat| then flat[p := b] else flat
    case Truncate(size) => Resize(flat, size)
    case _ => flat
  }

  function Reads(flat: seq<Byte>, op: Op): seq<Byte> {
    match op
    case Read(pos, n) => if pos < |flat| then flat[pos..Min(pos + n, |flat|)] else []
    case _ => []
  }

  /** A read gives the bytes there are: all that are asked for, or those up to end of file. */
  lemma ReadsExactly(flat: seq<Byte>, pos: nat, n: nat)
    ensures |Reads(flat, Op.Read(pos, n))| == Min(n, Max(|flat| - pos, 0))
    ensures forall k :: 0 <= k < |Reads(flat, Op.Read(pos, n))| ==> Reads(flat, Op.Read(pos, n))[k] == flat[pos + k]
  {
  }

  /** What was written is read back, and everything else reads as before, with zeros where
      nothing was. */
  lemma WriteThenRead(flat: seq<Byte>, pos: nat, data: seq<Byte>, p: nat)
    ensures Reads(Effect(flat, Op.Write(pos, data)), Op.Read(pos, |data|)) == data
    ensures data != [] ==> |Effect(flat, Op.Write(pos, data))| == Max(|flat|, pos + |data|)
    ensures p < |Effect(flat, Op.Write(pos, data))| && (p < pos || pos + |data| <= p) ==>
      Reads(Effect(flat, Op.Write(pos, data)), Op.Read(p, 1)) == [if p < |flat| then flat[p] else 0]
  {
  }

  lemma StoreThenRead(flat: seq<Byte>, q: nat, b: Byte, p: nat)
    requires q < |flat| && p < |flat|
    ensures |Effect(flat, Op.Store(q, b))| == |flat|
    ensures Reads(Effect(flat, Op.Store(q, b)), Op.Read(p, 1)) == [if p == q then b else flat[p]]
  {
  }

  lemma TruncateThenRead(flat: seq<Byte>, size: nat, p: nat)
    ensures |Effect(flat, Op.Truncate(size))| == size
    ensures p < size ==> Reads(Effect(flat, Op.Truncate(size)), Op.Read(p, 1)) == [if p < |flat| then flat[p] else 0]
  {
  }

  /** Nothing else changes what can be read. */
  lemma OthersChangeNothing(flat: seq<Byte>, op: Op)
    ensures Effect(flat, op) == flat || op.Write? || op.Truncate? || (op.Store? && op.p < |flat|)
    ensures !op.Read? ==> Reads(flat, op) == []
  {
  }

  function Effects(flat: seq<Byte>, ops: seq<Op>): seq<Byte> {
    if ops == [] then flat else Effect(Effects(flat, ops[..|ops| - 1]), ops[|ops| - 1])
  }

  function AllReads(flat: seq<Byte>, ops: seq<Op>): seq<seq<Byte>> {
    if ops == [] then []
    else AllReads(flat, ops[..|ops| - 1]) + [Reads(Effects(flat, ops[..|ops| - 1]), ops[|ops| - 1])]
  }

  /** The `k`-th operation of a run reads what all operations before it have left. */
  lemma {:induction false} ReadsInOrder(flat: seq<Byte>, ops: seq<Op>, k: nat)
    requires k < |ops|
    ensures |AllReads(flat, ops)| == |ops|
    ensures AllReads(flat, ops)[k] == Reads(Effects(flat, ops[..k]), ops[k])
    ensures Effects(flat, ops[..k + 1]) == Effect(Effects(flat, ops[..k]), ops[k])
  {
    assert ops[..k + 1][..k] == ops[..k];
    if k == |ops| - 1 {
      assert ops[..k + 1] == ops;
      ReadCount(flat, ops);
      ReadCount(flat, ops[..k]);
    } else {
      ReadsInOrder(flat, ops[..|ops| - 1], k);
      assert ops[..|ops| - 1][..k] == ops[..k];
    }
  }

  lemma {:induction false} ReadCount(flat: seq<Byte>, ops: seq<Op>)
    ensures |AllReads(flat, ops)| == |ops|
  {
    if ops != [] {
      ReadCount(flat, ops[..|ops| - 1]);
    }
  }

  class LofsFile {
    var lower: seq<Byte>
    var lowerPos: nat
    var size: nat
    var pages: Pages

    ghost predicate Valid()
      reads this
    {
      size == |lower| && Sized(pages) && Coherent(lower, pages)
    }

    ghost function Flat(): seq<Byte>
      requires Valid()
      reads this
    {
      FlatOf(lower, pages)
    }

    /** Looking a file up: sizes agree and nothing is cached yet. */
    constructor (lower: seq<Byte>)
      ensures Valid() && Flat() == lower && pages == map[]
    {
      this.lower, lowerPos, size, pages := lower, 0, |lower|, map[];
      new;
      CleanIsFlat(lower, map[]);
    }

    // ------------------------------------------------------------- read_write.c

    /** `lofs_write_lower` */
    method WriteLower(data: seq<Byte>, offset: nat, n: nat)
      requires n <= |data|
      modifies this`lower, this`lowerPos
      ensures lower == Overwrite(old(lower), offset, data[..n])
    {
      lowerPos := offset;
      lower := Overwrite(lower, lowerPos, data[..n]);
      lowerPos := lowerPos + n;
    }

    /** `lofs_write_lower_page_segment` */
    method WriteLowerPageSegment(i: nat, offsetInPage: nat, n: nat)
      requires i in pages && n <= |pages[i].data|
      modifies this`lower, this`lowerPos
      ensures lower == Overwrite(old(lower), i * PAGE + offsetInPage, pages[i].data[..n])
    {
      WriteLower(pages[i].data, i * PAGE + offsetInPage, n);
    }

    /** `lofs_read_lower_page`: a full page read, the remainder zeroed. */
    method ReadLowerPage(i: nat) returns (data: seq<Byte>)
      ensures data == PageOf(lower, i)
    {
      var offset := i * PAGE;
      var rc := Min(PAGE, Max(|lower| - offset, 0));
      data := if rc > 0 then lower[offset..offset + rc] else [];
      data := data + Zeros(PAGE - rc);
    }

    // ------------------------------------------------------------------- mmap.c

    /** `lofs_readpage`, called for a page that is not up to date. */
    method Readpage(i: nat)
      requires Valid()
      modifies this`pages
      ensures Valid() && Flat() == old(Flat())
      ensures i in pages && pages[i].uptodate
    {
      if i !in pages || !pages[i].uptodate {
        LoadKeeps(lower, pages, i);
        var data := ReadLowerPage(i);
        pages := pages[i := Page(data, true, false)];
      }
    }

    /** `lofs_write_begin`: the page is in the cache and up to date afterwards. */
    method WriteBegin(pos: nat)
      requires Valid()
      modifies this`pages
      ensures Valid() && Flat() == old(Flat())
      ensures pos / PAGE in pages && pages[pos / PAGE].uptodate
    {
      Readpage(pos / PAGE);
    }

    /** `lofs_write_end`, after `data` has been copied into the page at `pos`. */
    method WriteEnd(pos: nat, data: seq<Byte>)
      requires Valid() && pos / PAGE in pages && pages[pos / PAGE].uptodate
      requires pos % PAGE + |data| <= PAGE
      modifies this
      ensures Valid() && Flat() == WriteEffect(old(Flat()), pos, data)
      ensures size == |Flat()|
    {
      var i: nat := pos / PAGE;
      var from: nat := pos % PAGE;
      WriteThrough(lower, pages, i, from, pos, data);
      pages := pages[i := Patched(pages[i], from, data)];
      WriteLowerPageSegment(i, 0, from + |data|);
      size := |lower|;
    }

    /** The part of a write that falls into its first page. */
    method WriteChunk(pos: nat, data: seq<Byte>) returns (n: nat)
      requires Valid() && data != []
      modifies this
      ensures Valid() && 0 < n <= |data|
      ensures Flat() == Overwrite(old(Flat()), pos, data[..n])
    {
      n := Min(PAGE - pos % PAGE, |data|);
      WriteBegin(pos);
      WriteEnd(pos, data[..n]);
    }

    /** `write`, page by page. */
    method WriteData(pos: nat, data: seq<Byte>)
      requires Valid()
      modifies this
      ensures Valid() && Flat() == Overwrite(old(Flat()), pos, data)
    {
      var done: nat := 0;
      assert Overwrite(Flat(), pos, data[..0]) == Flat();
      while done < |data|
        invariant done <= |data|
        invariant Valid() && Flat() == Overwrite(old(Flat()), pos, data[..done])
      {
        var n := WriteChunk(pos + done, data[done..]);
        OverwriteOn(old(Flat()), pos, data, done, pos + done, data[done..][..n], done + n);
        done := done + n;
      }
      assert data[..done] == data;
    }

    /** The part of a read that falls into its first page. */
    method ReadChunk(pos: nat, end: nat) returns (out: seq<Byte>)
      requires Valid() && pos < end <= size
      modifies this`pages
      ensures Valid() && Flat() == old(Flat())
      ensures 0 < |out| && pos + |out| <= end && out == Flat()[pos..pos + |out|]
    {
      var i: nat := pos / PAGE;
      var from: nat := pos % PAGE;
      Readpage(i);
      var n := Min(PAGE - from, end - pos);
      PageShowsFlat(lower, pages, i, from, n);
      out := pages[i].data[from..from + n];
    }

    /** `read`, page by page, up to end of file. */
    method ReadData(pos: nat, n: nat) returns (out: seq<Byte>)
      requires Valid()
      modifies this`pages
      ensures Valid() && Flat() == old(Flat())
      ensures |out| == Min(n, Max(|Flat()| - pos, 0)) && forall k :: 0 <= k < |out| ==> out[k] == Flat()[pos + k]
      ensures out == Reads(Flat(), Op.Read(pos, n))
    {
      out := [];
      ghost var flat := Flat();
      var end := Min(pos + n, size);
      var at := pos;
      while at < end
        invariant Valid() && Flat() == flat && end == Min(pos + n, |flat|)
        invariant pos <= at <= Max(pos, end)
        invariant at <= |flat| ==> out == flat[pos..at]
        invariant at == pos ==> out == []
        decreases end - at
      {
        var chunk := ReadChunk(at, end);
        assert flat[pos..at + |chunk|] == flat[pos..at] + flat[at..at + |chunk|];
        out := out + chunk;
        at := at + |chunk|;
      }
    }

    /** A store through a shared mapping, inside the file; the fault reads the page in. */
    method StoreByte(p: nat, b: Byte)
      requires Valid() && p < size
      modifies this`pages
      ensures Valid() && Flat() == old(Flat())[p := b]
    {
      Readpage(p / PAGE);
      StoreShows(lower, pages, p, b);
      pages := pages[p / PAGE := Patched(pages[p / PAGE], p % PAGE, [b]).(dirty := true)];
    }

    /** `lofs_writepage`, whose caller has just cleared the dirty flag. */
    method WritePage(i: nat)
      requires Valid() && i in pages && pages[i].uptodate
      modifies this
      ensures Valid() && Flat() == old(Flat()) && size == old(size)
      ensures pages == old(pages)[i := old(pages)[i].(dirty := false)]
    {
      WritebackKeeps(lower, pages, i);
      pages := pages[i := pages[i].(dirty := false)];
      var offset := i * PAGE;
      var length := PAGE;
      var maxIndex := size / PAGE;
      if i <= maxIndex {
        if i == maxIndex {
          length := size % PAGE;
        }
        if length > 0 {
          WriteLower(pages[i].data, offset, length);
        }
      }
    }

    /** Dirty pages are written back, one after the other. */
    method WriteBack(which: set<nat>)
      requires Valid() && forall i :: i in which ==> i in pages && pages[i].dirty
      modifies this
      ensures Valid() && Flat() == old(Flat())
      ensures forall i :: i in pages && pages[i].dirty <==> i in old(pages) && old(pages)[i].dirty && i !in which
    {
      var left := which;
      while left != {}
        invariant Valid() && Flat() == old(Flat()) && left <= which
        invariant forall i :: i in left ==> i in pages && pages[i].dirty
        invariant forall i :: i in pages && pages[i].dirty <==> i in old(pages) && old(pages)[i].dirty && i !in which - left
        decreases |left|
      {
        var i: nat :| i in left;
        assert PageAgrees(lower, i, pages[i]);
        WritePage(i);
        left := left - {i};
      }
    }

    /** `lofs_fsync`, before 3.2: every dirty page is written back before the lower file is
        synced. */
    method Sync()
      requires Valid()
      modifies this
      ensures Valid() && Flat() == old(Flat()) && lower == Flat()
    {
      WriteBack(set i | i in pages && pages[i].dirty);
      CleanIsFlat(lower, pages);
    }

    /** `lofs_fsync` since then: only the pages that have a part of the range. */
    method SyncRange(start: nat, end: nat)
      requires Valid()
      modifies this
      ensures Valid() && Flat() == old(Flat())
      ensures forall p :: start <= p <= end && p < |lower| ==> lower[p] == Flat()[p]
    {
      WriteBack(set i | i in pages && pages[i].dirty && i * PAGE <= end && start < (i + 1) * PAGE);
      forall p | start <= p <= end && p < |lower|
        ensures lower[p] == Flat()[p]
      {
        var i: nat := p / PAGE;
        assert i * PAGE <= p < (i + 1) * PAGE;
        CleanByte(lower, pages, p);
      }
    }

    /** The size part of `lofs_setattr`: the lower file is cut or extended, then the cached
        pages follow, then the size is copied. */
    method SetSize(n: nat)
      requires Valid()
      modifies this
      ensures Valid() && Flat() == Resize(old(Flat()), n)
    {
      TruncateShows(lower, pages, n);
      assert n == |lower| ==> Resize(Flat(), n) == Flat() && Resize(lower, n) == lower;
      lower := Resize(lower, n);
      if n != size {
        if n < size {
          pages := map i | i in pages && i * PAGE < n ::
            if i == n / PAGE
            then pages[i].(data := pages[i].data[..n % PAGE] + Zeros(PAGE - n % PAGE))
            else pages[i];
        }
        size := n;
      }
      size := |lower|;
    }

    /** The kernel drops a clean page. */
    method EvictPage(i: nat)
      requires Valid()
      modifies this`pages
      ensures Valid() && Flat() == old(Flat())
    {
      if i in pages && !pages[i].dirty {
        EvictKeeps(lower, pages, i);
        pages := pages - {i};
      }
    }

    // --------------------------------------------------------------------- runs

    method Step(op: Op) returns (out: seq<Byte>)
      requires Valid()
      modifies this
      ensures Valid() && Flat() == Effect(old(Flat()), op)
      ensures out == Reads(old(Flat()), op)
      ensures op.Fsync? ==> lower == Flat()
      ensures op.FsyncRange? ==> forall p :: op.start <= p <= op.end && p < |lower| ==> lower[p] == Flat()[p]
      ensures op.Writepage? ==> |lower| == old(|lower|)
    {
      out := [];
      match op {
        case Read(pos, n) => out := ReadData(pos, n);
        case Write(pos, data) => WriteData(pos, data);
        case Store(p, b) => if p < size { StoreByte(p, b); }
        case Writepage(i) => if i in pages && pages[i].uptodate { WritePage(i); }
        case Truncate(n) => SetSize(n);
        case Fsync => Sync();
        case FsyncRange(start, end) => SyncRange(start, end);
        case Evict(i) => EvictPage(i);
      }
    }

    /** Any run of operations reads what the same run reads on a flat file, and leaves that
        file; after an fsync the lower file is that file. */
    method Run(ops: seq<Op>) returns (outs: seq<seq<Byte>>)
      requires Valid()
      modifies this
      ensures Valid() && Flat() == Effects(old(Flat()), ops)
      ensures outs == AllReads(old(Flat()), ops)
      ensures ops != [] && ops[|ops| - 1].Fsync? ==> lower == Effects(old(Flat()), ops)
    {
      outs := [];
      var k := 0;
      while k < |ops|
        invariant k <= |ops| && Valid()
        invariant Flat() == Effects(old(Flat()), ops[..k])
        invariant outs == AllReads(old(Flat()), ops[..k])
        invariant k > 0 && ops[k - 1].Fsync? ==> lower == Flat()
      {
        assert ops[..k + 1][..k] == ops[..k];
        var out := Step(ops[k]);
        outs := outs + [out];
        k := k + 1;
      }
      assert ops[..k] == ops;
    }
  }

  lemma PageShowsFlat(lower: seq<Byte>, pages: Pages, i: nat, from: nat, n: nat)
    requires Sized(pages) && i in pages && pages[i].uptodate
    requires from + n <= PAGE && i * PAGE + from + n <= |lower|
    ensures pages[i].data[from..from + n] == FlatOf(lower, pages)[i * PAGE + from..i * PAGE + from + n]
  {
    var shown, meant := pages[i].data[from..from + n], FlatOf(lower, pages)[i * PAGE + from..i * PAGE + from + n];
    forall k | 0 <= k < n
      ensures shown[k] == meant[k]
    {
      assert (i * PAGE + from + k) / PAGE == i && (i * PAGE + from + k) % PAGE == from + k;
    }
  }
}
