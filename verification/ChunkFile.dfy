/** `encode_file` and `decode_file`: a whole file cut into chunks, stored, and read back. */
module ChunkFile {
  import opened Bytes
  import opened ByteFile
  import opened ChunkIndex
  import opened ChunkStore
  import opened Options

  /** Where chunk `i` starts, or the end of the input if it has fewer chunks. */
  function Base(input: seq<Byte>, chunkSize: nat, i: nat): (base: nat)
    ensures base <= |input|
  {
    if i == 0 then 0 else Min(Base(input, chunkSize, i - 1) + chunkSize, |input|)
  }

  function Cut(input: seq<Byte>, chunkSize: nat, i: nat): seq<Byte> {
    input[Base(input, chunkSize, i)..Base(input, chunkSize, i + 1)]
  }

  // ------------------------------------------------------------------ a stale index

  /** The file as its index sees it: an index may point beyond a file that has just been
      emptied, and the first write behind such a gap fills it with zeros. */
  ghost function Padded(file: seq<Byte>, offsets: seq<int>): (r: seq<Byte>)
    requires Ordered(offsets)
    ensures Indexed(offsets, |r|)
  {
    if |file| < End(offsets) then Resize(file, End(offsets)) else file
  }

  /** What the pages of an index read as when the file in front of it is all zeros. */
  ghost function Blank(offsets: seq<int>): (pages: seq<seq<Byte>>)
    requires Ordered(offsets)
  {
    View(Zeros(End(offsets)), offsets).pages
  }

  lemma BlankIsZeros(offsets: seq<int>, i: nat)
    requires Ordered(offsets) && i < |offsets|
    ensures |Blank(offsets)| == |offsets| && Blank(offsets)[i] == Zeros(Width(offsets, i))
  {
    assert Zeros(End(offsets))[Start(offsets, i)..offsets[i]] == Zeros(Width(offsets, i));
  }

  lemma PaddedAppend(file: seq<Byte>, offsets: seq<int>, page: seq<Byte>)
    requires Ordered(offsets)
    ensures var offsets' := offsets + [End(offsets) + |page|];
            && Ordered(offsets')
            && Padded(Overwrite(file, End(offsets), page), offsets') == Overwrite(Padded(file, offsets), End(offsets), page)
  {
  }

  lemma PaddedTail(file: seq<Byte>, offsets: seq<int>, tail: seq<Byte>)
    requires Ordered(offsets)
    ensures Padded(Resize(Overwrite(file, End(offsets), tail), End(offsets) + |tail|), offsets)
         == Resize(Overwrite(Padded(file, offsets), End(offsets), tail), End(offsets) + |tail|)
  {
  }

  // ------------------------------------------------------------------------ encoding

  /** The store holds `stale` pages, then the first `base` bytes of `input` in chunks: as
      pages that decode to them, except that a tail may hold the last one. */
  ghost predicate Holds(s: Store, stale: seq<seq<Byte>>, codec: Codec, input: seq<Byte>, chunkSize: nat, base: nat)
  {
    && stale <= s.pages
    && base <= |input|
    && (forall i :: |stale| <= i < |s.pages| ==> codec.decode(s.pages[i]) == Some(Cut(input, chunkSize, i - |stale|)))
    && Base(input, chunkSize, |s.pages| - |stale|) <= base
    && s.tail == input[Base(input, chunkSize, |s.pages| - |stale|)..base]
  }

  lemma TailOf(s: Store, stale: seq<seq<Byte>>, codec: Codec, input: seq<Byte>, chunkSize: nat, base: nat)
    requires Holds(s, stale, codec, input, chunkSize, base)
    ensures |s.tail| == base - Base(input, chunkSize, |s.pages| - |stale|)
  {
  }

  /** The state of the encoding loop: nothing but whole chunks so far, unless it is done. */
  ghost predicate Encoded(file: seq<Byte>, offsets: seq<int>, stale: seq<seq<Byte>>,
                          settings: Settings, codec: Codec, input: seq<Byte>, base: nat)
  {
    Ordered(offsets) && 0 < settings.chunkSize && InChunks(View(Padded(file, offsets), offsets), stale, settings, codec, input, base)
  }

  ghost predicate InChunks(s: Store, stale: seq<seq<Byte>>, settings: Settings, codec: Codec, input: seq<Byte>, base: nat)
    requires 0 < settings.chunkSize
  {
    && Holds(s, stale, codec, input, settings.chunkSize, base)
    && |s.tail| < settings.chunkSize && (base < |input| ==> s.tail == [])
    && (base == |input| ==> (s.tail != [] <==> settings.fastTails && |input| % settings.chunkSize != 0))
  }

  /** In front of the last chunk all chunks are whole. */
  lemma {:induction false} WholeChunks(input: seq<Byte>, chunkSize: nat, k: nat)
    requires Base(input, chunkSize, k) < |input|
    ensures Base(input, chunkSize, k) == k * chunkSize
  {
    if k > 0 {
      WholeChunks(input, chunkSize, k - 1);
      assert k * chunkSize == (k - 1) * chunkSize + chunkSize;
    }
  }

  lemma NextChunk(input: seq<Byte>, chunkSize: nat, k: nat, base: nat)
    requires 0 < chunkSize && base == Base(input, chunkSize, k) < |input|
    ensures var next := base + Min(chunkSize, |input| - base);
      && Base(input, chunkSize, k + 1) == next
      && input[base..next] == Cut(input, chunkSize, k)
      && (next == |input| ==> (next - base == chunkSize <==> |input| % chunkSize == 0))
  {
    WholeChunks(input, chunkSize, k);
    if base + chunkSize >= |input| {
      LastChunk(k, chunkSize, |input| - base, |input|);
    }
  }

  lemma LastChunk(k: nat, chunkSize: nat, cnt: nat, size: nat)
    requires 0 < cnt <= chunkSize && size == k * chunkSize + cnt
    ensures cnt == chunkSize <==> size % chunkSize == 0
  {
    if cnt == chunkSize {
      assert (k + 1) * chunkSize == k * chunkSize + chunkSize;
      ModOf(k + 1, chunkSize, 0);
    } else {
      ModOf(k, chunkSize, cnt);
    }
  }

  lemma ModOf(k: nat, n: nat, r: nat)
    requires r < n
    ensures (k * n + r) % n == r
  {
    var x := k * n + r;
    var d := x / n - k;
    assert d * n == (x / n) * n - k * n;
    assert d * n == r - x % n;
    Multiples(d, n);
  }

  lemma Multiples(d: int, n: nat)
    ensures d >= 1 ==> d * n >= n
    ensures d <= -1 ==> d * n + n <= 0
  {
  }

  /** How `put_page` changes file and index when it is given the next page. */
  ghost predicate Appended(file: seq<Byte>, offsets: seq<int>, page: seq<Byte>, file': seq<Byte>, offsets': seq<int>)
  {
    offsets' == offsets + [End(offsets) + |page|] && 0 <= End(offsets) && file' == Overwrite(file, End(offsets), page)
  }

  ghost predicate TailWritten(file: seq<Byte>, offsets: seq<int>, tail: seq<Byte>, file': seq<Byte>, offsets': seq<int>)
  {
    && offsets' == offsets && 0 <= End(offsets)
    && file' == Resize(Overwrite(file, End(offsets), tail), End(offsets) + |tail|)
  }

  /** One more page holds the next chunk. */
  lemma NextPage(s: Store, page: seq<Byte>, stale: seq<seq<Byte>>, settings: Settings, codec: Codec,
                                    input: seq<Byte>, base: nat, next: nat)
    requires 0 < settings.chunkSize && InChunks(s, stale, settings, codec, input, base)
    requires base < |input| && next == base + Min(settings.chunkSize, |input| - base)
    requires codec.decode(page) == Some(input[base..next])
    requires !(settings.fastTails && next - base < settings.chunkSize)
    ensures InChunks(Store(s.pages + [page], []), stale, settings, codec, input, next)
  {
    NextChunk(input, settings.chunkSize, |s.pages| - |stale|, base);
  }

  lemma LastTail(s: Store, stale: seq<seq<Byte>>, settings: Settings, codec: Codec, input: seq<Byte>, base: nat)
    requires 0 < settings.chunkSize && InChunks(s, stale, settings, codec, input, base)
    requires settings.fastTails && base < |input| < base + settings.chunkSize
    ensures InChunks(s.(tail := input[base..]), stale, settings, codec, input, |input|)
  {
    NextChunk(input, settings.chunkSize, |s.pages| - |stale|, base);
  }

  lemma PageStep(file: seq<Byte>, offsets: seq<int>, file': seq<Byte>, offsets': seq<int>, page: seq<Byte>,
                 stale: seq<seq<Byte>>, settings: Settings, codec: Codec, input: seq<Byte>, base: nat, next: nat)
    requires Encoded(file, offsets, stale, settings, codec, input, base)
    requires base < |input| && codec.Lossless()
    requires next == base + Min(settings.chunkSize, |input| - base)
    requires codec.encode(input[base..next]) == Some(page)
    requires !(settings.fastTails && next - base < settings.chunkSize)
    requires Appended(file, offsets, page, file', offsets')
    ensures Encoded(file', offsets', stale, settings, codec, input, next)
  {
    var s := View(Padded(file, offsets), offsets);
    PaddedAppend(file, offsets, page);
    AppendView(Padded(file, offsets), offsets, page);
    NextPage(s, page, stale, settings, codec, input, base, next);
    assert View(Padded(file', offsets'), offsets') == Store(s.pages + [page], []);
  }

  lemma TailStep(file: seq<Byte>, offsets: seq<int>, file': seq<Byte>, offsets': seq<int>, tail: seq<Byte>,
                 stale: seq<seq<Byte>>, settings: Settings, codec: Codec, input: seq<Byte>, base: nat, next: nat)
    requires Encoded(file, offsets, stale, settings, codec, input, base)
    requires settings.fastTails && base < next == |input| < base + settings.chunkSize && tail == input[base..next]
    requires TailWritten(file, offsets, tail, file', offsets')
    ensures Encoded(file', offsets', stale, settings, codec, input, next)
  {
    var s := View(Padded(file, offsets), offsets);
    PaddedTail(file, offsets, tail);
    TailView(Padded(file, offsets), offsets, tail);
    LastTail(s, stale, settings, codec, input, base);
    assert tail == input[base..];
    assert View(Padded(file', offsets'), offsets') == s.(tail := tail);
  }

  lemma NothingEncoded(offsets: seq<int>, settings: Settings, codec: Codec, input: seq<Byte>)
    requires Ordered(offsets) && 0 < settings.chunkSize
    ensures Encoded([], offsets, Blank(offsets), settings, codec, input, 0)
  {
    assert Padded([], offsets) == Zeros(End(offsets));
  }

  /** The next chunk has been put, as a tail or as a page. */
  ghost predicate PutDone(file: seq<Byte>, offsets: seq<int>, data: seq<Byte>, settings: Settings, codec: Codec,
                          file': seq<Byte>, offsets': seq<int>)
  {
    if settings.IsTail(0, 0, data) then TailWritten(file, offsets, data, file', offsets')
    else codec.encode(data).Some? && Appended(file, offsets, codec.encode(data).value, file', offsets')
  }

  /** `put_page` with the next page number, as `encode_file` calls it. */
  method PutNext(f: File, h: Header, settings: Settings, codec: Codec, data: seq<Byte>, stray: Stray) returns (rc: int)
    requires h.Consistent()
    modifies f, h
    ensures h.Consistent()
    ensures rc <= 0 && (rc == 0 <==> settings.IsTail(0, 0, data) || codec.encode(data).Some?)
    ensures rc == 0 ==> PutDone(old(f.bytes), old(h.offsets), data, settings, codec, f.bytes, h.offsets)
    ensures rc == 0 && !settings.IsTail(0, 0, data) ==> h.realSize == old(h.realSize) + |data|
    ensures rc == 0 && settings.IsTail(0, 0, data) ==>
      h.realSize == |data| + if h.offsets == [] then 0 else old(h.realSize) - (|old(f.bytes)| - End(h.offsets))
  {
    rc := PutPage(f, h, settings, codec, h.numPages, data, stray);
  }

  // ------------------------------------------------------- what reaches the data file

  /** What chunk `k` puts into the file. */
  function Put(input: seq<Byte>, settings: Settings, codec: Codec, k: nat): seq<Byte> {
    var chunk := Cut(input, settings.chunkSize, k);
    if settings.IsTail(0, 0, chunk) then chunk
    else if codec.encode(chunk).Some? then codec.encode(chunk).value else []
  }

  /** One of the chunks before `base` puts something into the file. */
  ghost predicate Wrote(input: seq<Byte>, settings: Settings, codec: Codec, base: nat) {
    exists k: nat :: Base(input, settings.chunkSize, k) < base && Put(input, settings, codec, k) != []
  }

  lemma {:induction false} BaseGrows(input: seq<Byte>, chunkSize: nat, i: nat, j: nat)
    requires i <= j
    ensures Base(input, chunkSize, i) <= Base(input, chunkSize, j)
    ensures 0 < chunkSize && i < j && Base(input, chunkSize, i) < |input| ==>
      Base(input, chunkSize, i) < Base(input, chunkSize, j)
  {
    if i < j {
      BaseGrows(input, chunkSize, i, j - 1);
    }
  }

  lemma WroteNext(input: seq<Byte>, settings: Settings, codec: Codec, k: nat, next: nat)
    requires 0 < settings.chunkSize && Base(input, settings.chunkSize, k) < |input|
    requires next == Base(input, settings.chunkSize, k + 1)
    ensures Wrote(input, settings, codec, next) <==>
      Wrote(input, settings, codec, Base(input, settings.chunkSize, k)) || Put(input, settings, codec, k) != []
  {
    var base := Base(input, settings.chunkSize, k);
    BaseGrows(input, settings.chunkSize, k, k + 1);
    forall j: nat
      ensures Base(input, settings.chunkSize, j) < next <==> Base(input, settings.chunkSize, j) < base || j == k
    {
      if j < k {
        BaseGrows(input, settings.chunkSize, j, k);
      } else {
        BaseGrows(input, settings.chunkSize, k, j);
        if j > k {
          BaseGrows(input, settings.chunkSize, k + 1, j);
        }
      }
    }
  }

  /** A codec that makes something of everything: something is written unless there is nothing
      to write. */
  lemma WroteUnlessEmpty(input: seq<Byte>, settings: Settings, codec: Codec)
    requires 0 < settings.chunkSize
    requires forall data :: data != [] ==> codec.encode(data).Some? && codec.encode(data).value != []
    ensures Wrote(input, settings, codec, |input|) <==> input != []
  {
    if input != [] {
      assert Base(input, settings.chunkSize, 0) == 0;
      assert Put(input, settings, codec, 0) != [];
    }
  }

  /** The file reaches as far as the index points as soon as anything has been written, and is
      empty before.  `end` is where a left-over index ends. */
  ghost predicate Reaches(file: seq<Byte>, offsets: seq<int>, end: nat, wrote: bool, done: bool) {
    && (if wrote then End(offsets) <= |file| else file == [] && End(offsets) == end)
    && (!done ==> |file| <= End(offsets))
  }

  lemma PageReaches(file: seq<Byte>, offsets: seq<int>, page: seq<Byte>, file': seq<Byte>, offsets': seq<int>, end: nat, wrote: bool)
    requires Appended(file, offsets, page, file', offsets') && Reaches(file, offsets, end, wrote, false)
    ensures Reaches(file', offsets', end, wrote || page != [], false)
  {
  }

  lemma TailReaches(file: seq<Byte>, offsets: seq<int>, tail: seq<Byte>, file': seq<Byte>, offsets': seq<int>, end: nat)
    requires TailWritten(file, offsets, tail, file', offsets')
    ensures Reaches(file', offsets', end, true, true)
  {
  }

  lemma ChunkEncoded(file: seq<Byte>, offsets: seq<int>, file': seq<Byte>, offsets': seq<int>, stale: seq<seq<Byte>>,
                     settings: Settings, codec: Codec, input: seq<Byte>, base: nat, next: nat)
    requires codec.Lossless() && Encoded(file, offsets, stale, settings, codec, input, base)
    requires base < |input| && next == base + Min(settings.chunkSize, |input| - base)
    requires PutDone(file, offsets, input[base..next], settings, codec, file', offsets')
    ensures Encoded(file', offsets', stale, settings, codec, input, next)
  {
    var page := input[base..next];
    if settings.IsTail(0, 0, page) {
      TailStep(file, offsets, file', offsets', page, stale, settings, codec, input, base, next);
    } else {
      PageStep(file, offsets, file', offsets', codec.encode(page).value, stale, settings, codec, input, base, next);
    }
  }

  lemma EncodedBase(file: seq<Byte>, offsets: seq<int>, stale: seq<seq<Byte>>, settings: Settings, codec: Codec,
                    input: seq<Byte>, base: nat)
    requires Encoded(file, offsets, stale, settings, codec, input, base) && base < |input|
    ensures |stale| <= |offsets| && base == Base(input, settings.chunkSize, |offsets| - |stale|)
  {
    TailOf(View(Padded(file, offsets), offsets), stale, codec, input, settings.chunkSize, base);
  }

  lemma ChunkReaches(file: seq<Byte>, offsets: seq<int>, file': seq<Byte>, offsets': seq<int>,
                     settings: Settings, codec: Codec, input: seq<Byte>, k: nat, base: nat, next: nat, end: nat)
    requires 0 < settings.chunkSize && base == Base(input, settings.chunkSize, k)
    requires Reaches(file, offsets, end, Wrote(input, settings, codec, base), false)
    requires base < |input| && next == base + Min(settings.chunkSize, |input| - base)
    requires PutDone(file, offsets, input[base..next], settings, codec, file', offsets')
    ensures Reaches(file', offsets', end, Wrote(input, settings, codec, next), next == |input|)
  {
    var page := input[base..next];
    NextChunk(input, settings.chunkSize, k, base);
    WroteNext(input, settings, codec, k, next);
    if settings.IsTail(0, 0, page) {
      TailReaches(file, offsets, page, file', offsets', end);
    } else {
      PageReaches(file, offsets, codec.encode(page).value, file', offsets', end, Wrote(input, settings, codec, base));
    }
  }

  lemma ChunkDone(file: seq<Byte>, offsets: seq<int>, file': seq<Byte>, offsets': seq<int>, stale: seq<seq<Byte>>,
                  settings: Settings, codec: Codec, input: seq<Byte>, base: nat, next: nat, end: nat)
    requires codec.Lossless() && Encoded(file, offsets, stale, settings, codec, input, base)
    requires Reaches(file, offsets, end, Wrote(input, settings, codec, base), false)
    requires base < |input| && next == base + Min(settings.chunkSize, |input| - base)
    requires PutDone(file, offsets, input[base..next], settings, codec, file', offsets')
    ensures Encoded(file', offsets', stale, settings, codec, input, next)
    ensures Reaches(file', offsets', end, Wrote(input, settings, codec, next), next == |input|)
  {
    EncodedBase(file, offsets, stale, settings, codec, input, base);
    ChunkReaches(file, offsets, file', offsets', settings, codec, input, |offsets| - |stale|, base, next, end);
    ChunkEncoded(file, offsets, file', offsets', stale, settings, codec, input, base, next);
  }

  /** One turn of the loop of `encode_file`: cut the next chunk and append it. */
  method EncodeChunk(input: seq<Byte>, settings: Settings, codec: Codec, f: File, h: Header, stray: Stray,
                     base: nat, ghost stale: seq<seq<Byte>>, ghost end: nat)
    returns (put: int, next: nat)
    requires codec.Lossless() && h.Consistent() && base < |input|
    requires Encoded(f.bytes, h.offsets, stale, settings, codec, input, base)
    requires Reaches(f.bytes, h.offsets, end, Wrote(input, settings, codec, base), false)
    modifies f, h
    ensures h.Consistent() && (put < 0 || put == 0)
    ensures put < 0 ==> exists data :: codec.encode(data) == None
    ensures put == 0 ==> base < next <= |input|
    ensures put == 0 ==> Encoded(f.bytes, h.offsets, stale, settings, codec, input, next)
    ensures put == 0 ==> Reaches(f.bytes, h.offsets, end, Wrote(input, settings, codec, next), next == |input|)
    ensures put == 0 && |old(f.bytes)| == End(old(h.offsets)) && stale == [] && old(h.realSize) == base ==> h.realSize == next
  {
    ghost var file, offsets := f.bytes, h.offsets;
    var cnt := |input| - base;
    if cnt > settings.chunkSize {
      cnt := settings.chunkSize;
    }
    next := base + cnt;
    put := PutNext(f, h, settings, codec, input[base..next], stray);
    if put == 0 {
      ChunkDone(file, offsets, f.bytes, h.offsets, stale, settings, codec, input, base, next, end);
    }
  }

  /** `encode_file`.  The output file has been emptied; the header is what the index file
      held, or empty if there was none. */
  method EncodeFile(input: seq<Byte>, settings: Settings, codec: Codec, f: File, h: Header, stray: Stray) returns (rc: int)
    requires 0 < settings.chunkSize && codec.Lossless()
    requires f.bytes == [] && h.Consistent()
    modifies f, h
    ensures h.Consistent()
    ensures rc == 0 ==> Encoded(f.bytes, h.offsets, old(Blank(h.offsets)), settings, codec, input, |input|)
    ensures rc == 0 ==> (h.Fits(f) <==> old(End(h.offsets)) == 0 || Wrote(input, settings, codec, |input|))
    ensures rc == 0 && old(h.offsets) == [] && old(h.realSize) == 0 ==> h.realSize == |input|
    ensures (forall data :: codec.encode(data).Some?) ==> rc == 0
  {
    var base := 0;
    ghost var stale, end := Blank(h.offsets), End(h.offsets);
    NothingEncoded(h.offsets, settings, codec, input);
    while base < |input|
      invariant base <= |input| && h.Consistent()
      invariant Encoded(f.bytes, h.offsets, stale, settings, codec, input, base)
      invariant Reaches(f.bytes, h.offsets, end, Wrote(input, settings, codec, base), base == |input|)
      invariant old(h.offsets) == [] && base < |input| ==> |f.bytes| == End(h.offsets)
      invariant old(h.offsets) == [] && old(h.realSize) == 0 ==> h.realSize == base
    {
      var put, next := EncodeChunk(input, settings, codec, f, h, stray, base, stale, end);
      if put < 0 {
        return -1;
      }
      base := next;
    }
    rc := 0;
  }

  // ------------------------------------------------------------------------ decoding

  /** The decoded pages of a store, joined; None if any of them does not decode. */
  ghost function Decoded(pages: seq<seq<Byte>>, codec: Codec): Option<seq<Byte>> {
    if pages == [] then Some([])
    else Joined(Decoded(pages[..|pages| - 1], codec), codec.decode(pages[|pages| - 1]))
  }

  function Joined(before: Option<seq<Byte>>, last: Option<seq<Byte>>): Option<seq<Byte>> {
    if before.Some? && last.Some? then Some(before.value + last.value) else None
  }

  lemma {:induction false} DecodedPrefix(pages: seq<seq<Byte>>, n: nat, codec: Codec)
    requires n <= |pages| && Decoded(pages[..n], codec) == None
    ensures Decoded(pages, codec) == None
    decreases |pages|
  {
    if n < |pages| {
      assert pages[..|pages| - 1][..n] == pages[..n];
      DecodedPrefix(pages[..|pages| - 1], n, codec);
    } else {
      assert pages[..n] == pages;
    }
  }

  /** Decoding fails exactly if some page does not decode. */
  lemma {:induction false} DecodedExactly(pages: seq<seq<Byte>>, codec: Codec)
    ensures Decoded(pages, codec).Some? <==> forall i :: 0 <= i < |pages| ==> codec.decode(pages[i]).Some?
  {
    if pages != [] {
      var n := |pages| - 1;
      DecodedExactly(pages[..n], codec);
      assert forall i :: 0 <= i < n ==> pages[..n][i] == pages[i];
    }
  }

  /** What comes out is what each page decodes to, in order: page `i` stands behind what the
      pages before it decode to. */
  lemma {:induction false} DecodedAt(pages: seq<seq<Byte>>, codec: Codec, i: nat)
    requires i < |pages| && Decoded(pages, codec).Some?
    ensures Decoded(pages[..i], codec).Some? && codec.decode(pages[i]).Some?
    ensures Decoded(pages[..i], codec).value + codec.decode(pages[i]).value <= Decoded(pages, codec).value
    ensures i == |pages| - 1 ==> Decoded(pages[..i], codec).value + codec.decode(pages[i]).value == Decoded(pages, codec).value
    decreases |pages|
  {
    var n := |pages| - 1;
    if i < n {
      DecodedAt(pages[..n], codec, i);
      assert pages[..n][..i] == pages[..i];
    }
  }

  /** `decode_file`: every page in order, then the tail if fast tails are on. */
  method DecodeFile(f: File, h: Header, settings: Settings, codec: Codec) returns (ok: bool, out: seq<Byte>)
    requires h.Fits(f)
    ensures ok <==> forall i :: 0 <= i < |h.Contents(f).pages| ==> codec.decode(h.Contents(f).pages[i]).Some?
    ensures ok <==> Decoded(h.Contents(f).pages, codec).Some?
    ensures ok ==> out == Decoded(h.Contents(f).pages, codec).value + if settings.fastTails then h.Contents(f).tail else []
  {
    ghost var pages := h.Contents(f).pages;
    DecodedExactly(pages, codec);
    out := [];
    var i := 0;
    while i < h.numPages
      invariant 0 <= i <= h.numPages == |pages|
      invariant Decoded(pages[..i], codec) == Some(out)
    {
      var page := GetPage(f, h, settings, codec, i);
      assert pages[..i + 1][..i] == pages[..i];
      if page == None {
        DecodedPrefix(pages, i + 1, codec);
        return false, out;
      }
      out := out + page.value;
      i := i + 1;
    }
    assert pages[..i] == pages;
    if settings.fastTails {
      var tail := GetPage(f, h, settings, codec, i);
      out := out + tail.value;
    }
    ok := true;
  }

  // ---------------------------------------------------------------------- round trips

  lemma DecodedOneMore(pages: seq<seq<Byte>>, n: nat, next: nat, codec: Codec)
    requires next == n + 1 <= |pages|
    ensures Decoded(pages[..next], codec) == Joined(Decoded(pages[..n], codec), codec.decode(pages[n]))
  {
    assert pages[..next][..n] == pages[..n];
  }

  lemma JoinCut(input: seq<Byte>, chunkSize: nat, k: nat, next: nat)
    requires next == k + 1
    ensures input[..Base(input, chunkSize, next)] == input[..Base(input, chunkSize, k)] + Cut(input, chunkSize, k)
  {
  }

  lemma JoinBehind(stale: Option<seq<Byte>>, a: seq<Byte>, b: seq<Byte>, ab: seq<Byte>)
    requires ab == a + b
    ensures Joined(stale, Some(ab)) == Joined(Joined(stale, Some(a)), Some(b))
  {
    if stale.Some? {
      assert stale.value + (a + b) == (stale.value + a) + b;
    }
  }

  /** Pages that hold the first `k` chunks of an input behind stale pages decode to what
      the stale ones decode to, then the input up to the last of these chunks. */
  lemma {:induction false} DecodedChunks(s: Store, stale: seq<seq<Byte>>, codec: Codec, input: seq<Byte>, chunkSize: nat,
                                         base: nat, k: nat)
    requires Holds(s, stale, codec, input, chunkSize, base) && |stale| + k <= |s.pages|
    ensures Decoded(s.pages[..|stale| + k], codec)
         == Joined(Decoded(stale, codec), Some(input[..Base(input, chunkSize, k)]))
    decreases k
  {
    if k == 0 {
      assert s.pages[..|stale|] == stale;
      JoinNothing(Decoded(stale, codec));
      assert input[..Base(input, chunkSize, 0)] == [];
    } else {
      DecodedChunks(s, stale, codec, input, chunkSize, base, k - 1);
      MoreChunks(s, stale, codec, input, chunkSize, base, k - 1, k, |stale| + (k - 1), |stale| + k);
    }
  }

  lemma {:induction false} MoreChunks(s: Store, stale: seq<seq<Byte>>, codec: Codec, input: seq<Byte>, chunkSize: nat,
                                      base: nat, k: nat, next: nat, n: nat, m: nat)
    requires Holds(s, stale, codec, input, chunkSize, base)
    requires next == k + 1 && n == |stale| + k && m == n + 1 <= |s.pages|
    requires Decoded(s.pages[..n], codec) == Joined(Decoded(stale, codec), Some(input[..Base(input, chunkSize, k)]))
    ensures Decoded(s.pages[..m], codec) == Joined(Decoded(stale, codec), Some(input[..Base(input, chunkSize, next)]))
  {
    assert n - |stale| == k;
    DecodedOneMore(s.pages, n, m, codec);
    JoinCut(input, chunkSize, k, next);
    JoinBehind(Decoded(stale, codec), input[..Base(input, chunkSize, k)], Cut(input, chunkSize, k),
               input[..Base(input, chunkSize, next)]);
  }

  lemma JoinNothing(stale: Option<seq<Byte>>)
    ensures Joined(stale, Some([])) == stale
  {
    assert stale.Some? ==> stale.value + [] == stale.value;
  }

  /** The part of the input a decoder sees: all of it, or all but the short last chunk if that
      was left as a tail and the decoder does not look there. */
  function Seen(input: seq<Byte>, enc: Settings, dec: Settings): seq<Byte>
    requires 0 < enc.chunkSize
  {
    if dec.fastTails || !enc.fastTails then input else input[..|input| - |input| % enc.chunkSize]
  }

  lemma ShortChunk(input: seq<Byte>, chunkSize: nat, k: nat, n: nat)
    requires 0 < n < chunkSize && Base(input, chunkSize, k) == |input| - n
    ensures |input| % chunkSize == n
  {
    WholeChunks(input, chunkSize, k);
    ModOf(k, chunkSize, n);
  }

  lemma TailSize(input: seq<Byte>, chunkSize: nat, k: nat, n: nat, fast: bool)
    requires n < chunkSize && Base(input, chunkSize, k) == |input| - n
    requires n != 0 <==> fast && |input| % chunkSize != 0
    ensures n == if fast then |input| % chunkSize else 0
  {
    if n > 0 {
      ShortChunk(input, chunkSize, k, n);
    }
  }

  lemma TailLength(s: Store, stale: seq<seq<Byte>>, enc: Settings, codec: Codec, input: seq<Byte>, k: nat)
    requires 0 < enc.chunkSize && InChunks(s, stale, enc, codec, input, |input|) && k == |s.pages| - |stale|
    ensures |s.tail| == if enc.fastTails then |input| % enc.chunkSize else 0
    ensures |input| - |s.tail| == Base(input, enc.chunkSize, k)
  {
    TailOf(s, stale, codec, input, enc.chunkSize, |input|);
    TailSize(input, enc.chunkSize, k, |s.tail|, enc.fastTails);
  }

  /** What the pages decode to, with the tail if the decoder looks at it. */
  lemma WhatIsSeen(s: Store, stale: seq<seq<Byte>>, enc: Settings, dec: Settings, codec: Codec, input: seq<Byte>)
    requires 0 < enc.chunkSize && InChunks(s, stale, enc, codec, input, |input|)
    ensures Decoded(s.pages, codec).Some? <==> Decoded(stale, codec).Some?
    ensures Decoded(stale, codec).Some? ==>
      Decoded(s.pages, codec).value + (if dec.fastTails then s.tail else []) == Decoded(stale, codec).value + Seen(input, enc, dec)
  {
    var k := |s.pages| - |stale|;
    DecodedChunks(s, stale, codec, input, enc.chunkSize, |input|, k);
    assert s.pages[..|stale| + k] == s.pages;
    TailLength(s, stale, enc, codec, input, k);
    var before := input[..Base(input, enc.chunkSize, k)];
    assert input == before + s.tail;
    JoinBehind(Decoded(stale, codec), before, s.tail, input);
    assert Seen(input, enc, dec) == if dec.fastTails then input else before;
  }

  /** Encoding a file and decoding the result.
      With no index left over, the original comes back exactly when the decoder looks at
      the tail, or there is none: that is, unless fast tails were on for encoding, the
      last chunk was short, and they are off for decoding.
      With an index left over from an earlier run, `encode_file` appends behind its pages
      although it has emptied the file under them; what comes back is what those pages, now
      zeros, decode to, and then what the decoder sees of the input.  `fits` is false if
      such an index ends behind 0 and not a byte was written: `decode_file` would then read
      past the end of the file. */
  method RoundTrip(input: seq<Byte>, enc: Settings, dec: Settings, codec: Codec, h: Header, stray: Stray)
    returns (rc: int, fits: bool, ok: bool, out: seq<Byte>)
    requires 0 < enc.chunkSize && codec.Lossless() && h.Consistent()
    modifies h
    ensures (forall data :: codec.encode(data).Some?) ==> rc == 0
    ensures rc == 0 && old(h.offsets) == [] ==>
      fits && ok && (out == input <==> enc.fastTails && |input| % enc.chunkSize != 0 ==> dec.fastTails)
    ensures rc == 0 && old(h.offsets) == [] && old(h.realSize) == 0 ==> h.realSize == |input|
    ensures rc == 0 ==> (fits <==> old(End(h.offsets)) == 0 || Wrote(input, enc, codec, |input|))
    ensures rc == 0 && fits ==>
      var stale := old(Decoded(Blank(h.offsets), codec));
      (ok <==> stale.Some?) && (ok ==> out == stale.value + Seen(input, enc, dec))
    ensures rc == 0 && fits && (dec.fastTails || !enc.fastTails) ==>
      (ok && out == input <==> old(Decoded(Blank(h.offsets), codec)) == Some([]))
  {
    var f := new File();
    ghost var stale := Blank(h.offsets);
    rc := EncodeFile(input, enc, codec, f, h, stray);
    if rc != 0 {
      return rc, true, false, [];
    }
    fits := h.numPages == 0 || h.offsets[h.numPages - 1] <= |f.bytes|;
    if !fits {
      return 0, false, false, [];
    }
    ok, out := DecodeFile(f, h, dec, codec);
    ghost var s := h.Contents(f);
    WhatIsSeen(s, stale, enc, dec, codec, input);
  }
}
