/** Writing past end of file in base0fs: every page between the old end and the write is
    filled by a recursive whole-page write, so that the lower file has no holes. */
module HoleFilling {
  import opened Bytes
  import opened PageCache

  /** `base0fs_encode_block` and its inverse, byte by byte: the encoding block size is 1. */
  datatype Cipher = Cipher(enc: Byte -> Byte, dec: Byte -> Byte) {
    ghost predicate Inverse() {
      && (forall b :: dec(enc(b)) == b)
      && (forall b :: enc(dec(b)) == b)
    }
  }

  function Encoded(c: Cipher, plain: seq<Byte>): (r: seq<Byte>)
    ensures |r| == |plain| && forall i :: 0 <= i < |r| ==> r[i] == c.enc(plain[i])
  {
    seq(|plain|, i requires 0 <= i < |plain| => c.enc(plain[i]))
  }

  ghost function Decoded(c: Cipher, lower: seq<Byte>): (r: seq<Byte>)
    ensures |r| == |lower| && forall i :: 0 <= i < |r| ==> r[i] == c.dec(lower[i])
  {
    seq(|lower|, i requires 0 <= i < |lower| => c.dec(lower[i]))
  }

  /** A file extended to `n` bytes with copies of `b`, if it is shorter. */
  ghost function Extended(file: seq<Byte>, n: nat, b: Byte): (r: seq<Byte>)
    ensures |r| == Max(|file|, n)
    ensures forall i :: 0 <= i < |r| ==> r[i] == if i < |file| then file[i] else b
  {
    if n <= |file| then file else file + seq(n - |file|, _ => b)
  }

  /** The lower file after `data` has been written at `from` in page `i`: all pages skipped
      are filled with encoded zeros, but what is skipped inside page `i` is left to the
      lower file system, which fills it with plain zeros. */
  ghost function Written(c: Cipher, lower: seq<Byte>, i: nat, from: nat, data: seq<Byte>): seq<Byte> {
    Overwrite(Extended(lower, i * PAGE, c.enc(0)), i * PAGE + from, Encoded(c, data))
  }

  type Pages = map<nat, seq<Byte>>

  /** The up-to-date pages show the decoded lower file. */
  ghost predicate Shows(c: Cipher, lower: seq<Byte>, pages: Pages) {
    forall i :: i in pages ==> PageShows(c, lower, i, pages[i])
  }

  ghost predicate PageShows(c: Cipher, lower: seq<Byte>, i: nat, page: seq<Byte>) {
    && |page| == PAGE
    && forall o :: 0 <= o < PAGE && i * PAGE + o < |lower| ==> page[o] == c.dec(lower[i * PAGE + o])
  }

  /** The same, except for the bytes of page `i` a program has just put there. */
  ghost predicate ShowsBut(c: Cipher, lower: seq<Byte>, pages: Pages, i: nat, from: nat, to: nat) {
    forall j :: j in pages ==>
      && |pages[j]| == PAGE
      && forall o :: 0 <= o < PAGE && j * PAGE + o < |lower| && !(j == i && from <= o < to) ==>
           pages[j][o] == c.dec(lower[j * PAGE + o])
  }

  /** No byte of page `i` is skipped by a write at `from`. */
  predicate NothingSkipped(size: nat, i: nat, from: nat) {
    from == 0 || i * PAGE + from <= size
  }

  /** A page that shows the lower file and has zeros behind its end extends the lower file
      by encoded zeros when it is written as a whole. */
  lemma FilledIsExtended(c: Cipher, lower: seq<Byte>, i: nat, page: seq<Byte>)
    requires c.Inverse() && i == |lower| / PAGE && PageShows(c, lower, i, page)
    requires forall o :: |lower| % PAGE <= o < PAGE ==> page[o] == 0
    ensures Written(c, lower, i, 0, page[0..PAGE]) == Extended(lower, (i + 1) * PAGE, c.enc(0))
  {
    var got := Written(c, lower, i, 0, page[0..PAGE]);
    var want := Extended(lower, (i + 1) * PAGE, c.enc(0));
    assert Extended(lower, i * PAGE, c.enc(0)) == lower;
    assert |got| == |want|;
    forall p | 0 <= p < |got|
      ensures got[p] == want[p]
    {
      if p >= i * PAGE {
        assert got[p] == c.enc(page[p - i * PAGE]);
      }
    }
  }

  lemma OtherPageShows(c: Cipher, lower: seq<Byte>, i: nat, from: nat, data: seq<Byte>, j: nat, page: seq<Byte>)
    requires PageShows(c, lower, j, page) && j != i && from + |data| <= PAGE && i * PAGE <= |lower|
    ensures PageShows(c, Overwrite(lower, i * PAGE + from, data), j, page)
  {
    assert j < i ==> j * PAGE + PAGE <= i * PAGE;
    assert j > i ==> i * PAGE + PAGE <= j * PAGE;
  }

  lemma OwnPageShows(c: Cipher, lower: seq<Byte>, i: nat, from: nat, to: nat, was: seq<Byte>, page: seq<Byte>)
    requires c.Inverse() && from < to <= PAGE && i * PAGE <= |lower| && |was| == |page| == PAGE
    requires forall o :: 0 <= o < PAGE && i * PAGE + o < |lower| && !(from <= o < to) ==>
      was[o] == c.dec(lower[i * PAGE + o])
    requires page[from..to] == was[from..to]
    requires forall o :: 0 <= o < PAGE && !(from <= o < to) ==>
      page[o] == if |lower| <= i * PAGE + o < i * PAGE + from then 0 else was[o]
    requires NothingSkipped(|lower|, i, from) || c.enc(0) == 0
    ensures PageShows(c, Overwrite(lower, i * PAGE + from, Encoded(c, was[from..to])), i, page)
  {
    var lower' := Overwrite(lower, i * PAGE + from, Encoded(c, was[from..to]));
    forall o | 0 <= o < PAGE && i * PAGE + o < |lower'|
      ensures page[o] == c.dec(lower'[i * PAGE + o])
    {
      if from <= o < to {
        assert page[o] == page[from..to][o - from];
      }
    }
  }

  /** After the write, every page shows the new lower file, provided that what was skipped
      inside the page is zeroed in it and reads as zeros below. */
  lemma WrittenShows(c: Cipher, lower: seq<Byte>, pages: Pages, i: nat, from: nat, to: nat, page: seq<Byte>)
    requires c.Inverse() && from < to <= PAGE && i * PAGE <= |lower|
    requires i in pages && ShowsBut(c, lower, pages, i, from, to)
    requires |page| == PAGE && page[from..to] == pages[i][from..to]
    requires forall o :: 0 <= o < PAGE && !(from <= o < to) ==>
      page[o] == if |lower| <= i * PAGE + o < i * PAGE + from then 0 else pages[i][o]
    requires NothingSkipped(|lower|, i, from) || c.enc(0) == 0
    ensures Shows(c, Overwrite(lower, i * PAGE + from, Encoded(c, pages[i][from..to])), pages[i := page])
  {
    OwnPageShows(c, lower, i, from, to, pages[i], page);
    forall j | j in pages && j != i
      ensures PageShows(c, Overwrite(lower, i * PAGE + from, Encoded(c, pages[i][from..to])), j, pages[j])
    {
      OtherPageShows(c, lower, i, from, Encoded(c, pages[i][from..to]), j, pages[j]);
    }
  }

  /** What can be read back is the old content, zeros for the whole gap, then the data,
      exactly when no byte was skipped inside the page written or the encoding of zero is
      zero. */
  lemma GapReadsAsZerosExactly(c: Cipher, lower: seq<Byte>, i: nat, from: nat, data: seq<Byte>)
    requires c.Inverse() && data != [] && from + |data| <= PAGE
    ensures Decoded(c, Written(c, lower, i, from, data)) == Overwrite(Decoded(c, lower), i * PAGE + from, data)
       <==> NothingSkipped(|lower|, i, from) || c.enc(0) == 0
  {
    var got := Decoded(c, Written(c, lower, i, from, data));
    var want := Overwrite(Decoded(c, lower), i * PAGE + from, data);
    assert |got| == |want|;
    if NothingSkipped(|lower|, i, from) || c.enc(0) == 0 {
      assert forall p :: 0 <= p < |got| ==> got[p] == want[p];
    } else {
      var p := i * PAGE + from - 1;
      assert got[p] == c.dec(0) && want[p] == 0;
      assert c.dec(0) != 0 by {
        assert c.enc(c.dec(0)) == 0;
      }
    }
  }

  // ---------------------------------------------------- the subtraction of two sizes

  /** The difference whose sign guards the zeroing inside a page.  On a 64-bit machine both
      operands are taken as unsigned. */
  function Difference(wide: bool, from: nat, end: nat): int {
    if wide then (from - end) % 0x1_0000_0000_0000_0000 else from - end
  }

  /** The zeroing stays inside the page exactly if the subtraction is signed or does not go
      below zero. */
  lemma GuardExact(wide: bool, from: nat, end: nat)
    requires from <= PAGE && end < PAGE
    ensures Difference(wide, from, end) > 0 && end + Difference(wide, from, end) > PAGE <==> wide && from < end
    ensures !(wide && from < end) ==> Difference(wide, from, end) == from - end
  {
    if wide && from < end {
      assert (from - end) % 0x1_0000_0000_0000_0000 == from - end + 0x1_0000_0000_0000_0000;
    }
  }

  /** A write of `n` bytes at `pos` extends a file that ends inside a page, and starts before
      its end or behind that page. */
  predicate Overruns(size: nat, pos: nat, n: nat) {
    pos + n > size && size % PAGE != 0 && (pos < size || pos / PAGE > size / PAGE)
  }

  /** The same for a write inside one page: a page has to be filled although the file ends
      inside one, or the write starts before the end within the last page. */
  lemma OverrunsInPage(size: nat, i: nat, from: nat, to: nat)
    requires from < to <= PAGE
    ensures Overruns(size, i * PAGE + from, to - from) <==>
      (i > size / PAGE && size % PAGE != 0) || (i == size / PAGE && i * PAGE + to > size && from < size % PAGE)
  {
    assert (i * PAGE + from) / PAGE == i;
    assert size == size / PAGE * PAGE + size % PAGE;
  }

  /** Not starting before the old end within its page is not enough: a file of 100 bytes
      written to from byte 200 of its third page. */
  lemma FillingOverruns()
    ensures 200 >= 100 % PAGE && Overruns(100, 2 * PAGE + 200, 1)
    ensures Difference(true, 0, 100) == 0xFFFF_FFFF_FFFF_FF9C
  {
  }

  class Base0File {
    var lower: seq<Byte>
    var size: nat
    var pages: Pages
    const cipher: Cipher
    /** A 64-bit machine. */
    const wide: bool
    /** The zeroing has run off its page; what comes then is not modelled. */
    var overrun: bool

    ghost predicate Sizes()
      reads this
    {
      size == |lower| && cipher.Inverse() && !overrun
    }

    ghost predicate Valid()
      reads this
    {
      Sizes() && Shows(cipher, lower, pages)
    }

    constructor (lower: seq<Byte>, cipher: Cipher, wide: bool)
      requires cipher.Inverse()
      ensures Valid() && this.lower == lower && this.cipher == cipher && this.wide == wide
    {
      this.lower, this.cipher, this.wide, size, pages, overrun := lower, cipher, wide, |lower|, map[], false;
    }

    /** `base0fs_do_readpage` */
    method ReadPage(i: nat)
      requires Valid()
      modifies this`pages
      ensures Valid() && i in pages && |pages[i]| == PAGE
      ensures forall o :: 0 <= o < PAGE ==>
        pages[i][o] == if i * PAGE + o < |lower| then cipher.dec(lower[i * PAGE + o]) else 0
      ensures forall j :: j in old(pages) && j != i ==> j in pages && pages[j] == old(pages)[j]
    {
      var realSize := |lower| - i * PAGE;
      var (file, dec) := (lower, cipher.dec);
      pages := pages[i := seq(PAGE, o requires 0 <= o < PAGE => if o < realSize then dec(file[i * PAGE + o]) else 0)];
    }

    /** `base0fs_prepare_write` */
    method PrepareWrite(i: nat, from: nat, to: nat)
      requires Valid() && from <= to <= PAGE
      modifies this`pages
      ensures Valid() && (i in pages || (from == 0 && to == PAGE))
      ensures i in old(pages) ==> pages == old(pages)
    {
      if from == 0 && to == PAGE {
        return;
      }
      if i !in pages {
        ReadPage(i);
      }
    }

    /** Zero a page of the upper file from `from` up to `to`. */
    method Memset(i: nat, from: nat, to: nat)
      requires i in pages && from <= to <= |pages[i]|
      modifies this`pages
      ensures pages == old(pages)[i := old(pages)[i][..from] + Zeros(to - from) + old(pages)[i][to..]]
    {
      pages := pages[i := pages[i][..from] + Zeros(to - from) + pages[i][to..]];
    }

    /** What is skipped inside the page is zeroed in the upper page. */
    method ZeroSkipped(i: nat, from: nat, to: nat)
      requires Sizes() && from < to <= PAGE && i * PAGE <= |lower| && i in pages && |pages[i]| == PAGE
      modifies this`pages, this`overrun
      ensures overrun <==> wide && i * PAGE + to > size && from < size % PAGE
      ensures !overrun ==> i in pages && |pages[i]| == PAGE && pages == old(pages)[i := pages[i]]
      ensures !overrun ==> forall o :: 0 <= o < PAGE ==>
        pages[i][o] == if |lower| <= i * PAGE + o < i * PAGE + from then 0 else old(pages)[i][o]
    {
      if i * PAGE + to > |lower| {
        var length := Difference(wide, from, size % PAGE);
        GuardExact(wide, from, size % PAGE);
        if length > 0 {
          if size % PAGE + length > PAGE {
            overrun := true;
          } else {
            Memset(i, size % PAGE, size % PAGE + length);
          }
        }
      }
    }

    /** The second half of `base0fs_commit_write`: after the zeroing the new data goes down
        to the lower file. */
    method WriteOut(i: nat, from: nat, to: nat)
      requires Sizes() && from < to <= PAGE && i * PAGE <= |lower|
      requires i in pages && ShowsBut(cipher, lower, pages, i, from, to)
      modifies this
      ensures overrun <==> wide && i * PAGE + to > old(size) && from < old(size) % PAGE
      ensures !overrun ==>
        && Sizes() && lower == Overwrite(old(lower), i * PAGE + from, Encoded(cipher, old(pages)[i][from..to]))
        && (NothingSkipped(|old(lower)|, i, from) || cipher.enc(0) == 0 ==> Valid())
        && forall j :: j in old(pages) && j != i ==> j in pages && pages[j] == old(pages)[j]
    {
      ghost var was, before := lower, pages;
      ZeroSkipped(i, from, to);
      if overrun {
        return;
      }
      assert pages[i][from..to] == before[i][from..to];
      lower := Overwrite(lower, i * PAGE + from, Encoded(cipher, pages[i][from..to]));
      if i * PAGE + to > size {
        size := i * PAGE + to;
      }
      if NothingSkipped(|was|, i, from) || cipher.enc(0) == 0 {
        WrittenShows(cipher, was, before, i, from, to, pages[i]);
      }
    }

    /** `base0fs_commit_write`, for a page that holds the new data from `from` to `to`.  The
        recursion, one whole-page write per skipped page, is never entered again from
        within: its measure is 1 for a write that skips pages and 0 for any other.  All
        guards it evaluates, the nested ones included, hold on a 64-bit machine exactly if
        the write does not overrun. */
    method CommitWrite(i: nat, from: nat, to: nat)
      requires Sizes() && from < to <= PAGE
      requires i in pages && ShowsBut(cipher, lower, pages, i, from, to)
      modifies this
      ensures overrun <==> wide && Overruns(old(size), i * PAGE + from, to - from)
      ensures !overrun ==>
        && Sizes()
        && lower == Written(cipher, old(lower), i, from, old(pages)[i][from..to])
        && (NothingSkipped(|old(lower)|, i, from) || cipher.enc(0) == 0 ==> Valid())
        && forall j :: j in old(pages) && j > i ==> j in pages && pages[j] == old(pages)[j]
      decreases if i > |lower| / PAGE then 1 else 0, 0
    {
      ghost var was := lower;
      OverrunsInPage(size, i, from, to);
      if i > size / PAGE {
        var index := size / PAGE;
        while index < i
          invariant |was| / PAGE <= index <= i
          invariant lower == Extended(was, index * PAGE, cipher.enc(0))
          invariant index > |was| / PAGE ==> !(wide && |was| % PAGE != 0)
          invariant Valid() && i in pages && pages[i] == old(pages)[i]
          invariant forall j :: j in old(pages) && j > i ==> j in pages && pages[j] == old(pages)[j]
        {
          FillPage(index, i);
          if overrun {
            return;
          }
          index := index + 1;
        }
      }
      WriteOut(i, from, to);
    }

    /** One turn of the hole-filling loop. */
    method FillPage(index: nat, upTo: nat)
      requires Valid() && index == |lower| / PAGE && index < upTo
      modifies this
      ensures overrun <==> wide && old(size) % PAGE != 0
      ensures !overrun ==>
        && Valid()
        && lower == Extended(old(lower), (index + 1) * PAGE, cipher.enc(0))
        && forall j :: j in old(pages) && j > index ==> j in pages && pages[j] == old(pages)[j]
      decreases 0, 1
    {
      if index !in pages {
        ReadPage(index);
      }
      ghost var was := lower;
      Memset(index, size % PAGE, PAGE);
      PrepareWrite(index, 0, PAGE);
      FilledIsExtended(cipher, was, index, pages[index]);
      OverrunsInPage(size, index, 0, PAGE);
      CommitWrite(index, 0, PAGE);
    }

    /** The program's bytes arrive in the prepared page. */
    method CopyIn(i: nat, from: nat, data: seq<Byte>)
      requires Valid() && from + |data| <= PAGE && (i in pages || |data| == PAGE)
      modifies this`pages
      ensures i in pages && |pages[i]| == PAGE && pages[i][from..from + |data|] == data
      ensures ShowsBut(cipher, lower, pages, i, from, from + |data|)
    {
      var to := from + |data|;
      if i !in pages {
        pages := pages[i := data];
      } else {
        pages := pages[i := pages[i][..from] + data + pages[i][to..]];
      }
    }

    /** A write inside one page: the page is prepared, the data copied into it, the write
        committed.  Both sizes end at the end of the write if that lies further out, and
        what can be read is the flat write exactly if no byte was skipped inside the page
        or zero is encoded as zero. */
    method Write(i: nat, from: nat, data: seq<Byte>)
      requires Valid() && data != [] && from + |data| <= PAGE
      modifies this
      ensures overrun <==> wide && Overruns(old(size), i * PAGE + from, |data|)
      ensures !overrun ==>
        && Sizes() && size == Max(old(size), i * PAGE + from + |data|)
        && (Decoded(cipher, lower) == Overwrite(Decoded(cipher, old(lower)), i * PAGE + from, data)
            <==> NothingSkipped(old(size), i, from) || cipher.enc(0) == 0)
        && (NothingSkipped(old(size), i, from) || cipher.enc(0) == 0 ==> Valid())
    {
      PrepareWrite(i, from, from + |data|);
      CopyIn(i, from, data);
      GapReadsAsZerosExactly(cipher, lower, i, from, data);
      CommitWrite(i, from, from + |data|);
    }

    /** A write of any length, page by page.  It may start at any distance past end of file,
        under the condition of `Write` for the page it starts in; the later pages start
        where the file then ends. */
    method WriteData(pos: nat, data: seq<Byte>)
      requires Valid() && data != []
      requires NothingSkipped(size, pos / PAGE, pos % PAGE) || cipher.enc(0) == 0
      modifies this
      ensures overrun <==> wide && Overruns(old(size), pos, |data|)
      ensures !overrun ==>
        && Valid() && size == Max(old(size), pos + |data|)
        && Decoded(cipher, lower) == Overwrite(Decoded(cipher, old(lower)), pos, data)
    {
      var done: nat := 0;
      ghost var plain, end := Decoded(cipher, lower), size;
      while done < |data|
        invariant done <= |data| && Valid()
        invariant size == if done == 0 then end else Max(end, pos + done)
        invariant done > 0 ==> !(wide && Overruns(end, pos, done)) && (done == |data| || (pos + done) % PAGE == 0)
        invariant Decoded(cipher, lower) == Overwrite(plain, pos, data[..done])
      {
        var n := WriteChunk(pos + done, data[done..]);
        NextOverruns(end, pos, done, n, |data|);
        if overrun {
          return;
        }
        OverwriteOn(plain, pos, data, done, pos + done, data[done..][..n], done + n);
        done := done + n;
      }
      assert data[..done] == data;
    }

    method WriteChunk(pos: nat, data: seq<Byte>) returns (n: nat)
      requires Valid() && data != []
      requires NothingSkipped(size, pos / PAGE, pos % PAGE) || cipher.enc(0) == 0
      modifies this
      ensures 0 < n <= |data| && (n == |data| || (pos + n) % PAGE == 0)
      ensures overrun <==> wide && Overruns(old(size), pos, n)
      ensures !overrun ==>
        && Valid() && size == Max(old(size), pos + n)
        && Decoded(cipher, lower) == Overwrite(Decoded(cipher, old(lower)), pos, data[..n])
    {
      var i: nat := pos / PAGE;
      var from: nat := pos % PAGE;
      n := Min(PAGE - from, |data|);
      assert pos == i * PAGE + from;
      Write(i, from, data[..n]);
    }
  }

  /** A write overruns as a whole exactly if one of its pages does. */
  lemma NextOverruns(size: nat, pos: nat, done: nat, n: nat, all: nat)
    requires 0 < n && done + n <= all && (done > 0 ==> (pos + done) % PAGE == 0)
    ensures var now := if done == 0 then size else Max(size, pos + done);
      && (Overruns(size, pos, done + n) <==> (done > 0 && Overruns(size, pos, done)) || Overruns(now, pos + done, n))
      && (Overruns(size, pos, done + n) ==> Overruns(size, pos, all))
  {
  }
}
