/** The size-changing chunk store: `put_page` rewrites a variable-length encoded page in
    the middle of a file, `get_page` reads one back. */
module ChunkStore {
  import opened ByteFile
  import opened Bytes
  import opened ChunkIndex
  import opened Options

  /** `sca_encode_page` and `sca_decode_page`.  The repository only declares them; any
      pair that decodes what it encoded will do. */
  datatype Codec = Codec(encode: seq<Byte> -> Option<seq<Byte>>, decode: seq<Byte> -> Option<seq<Byte>>) {
    ghost predicate Lossless() {
      forall data :: encode(data).Some? ==> decode(encode(data).value) == Some(data)
    }
  }

  /** The two globals of the tools: the `-c` and `-f` options. */
  datatype Settings = Settings(chunkSize: nat, fastTails: bool) {
    /** A page that is kept unencoded behind the last one. */
    predicate IsTail(pageno: int, numPages: int, data: seq<Byte>) {
      |data| < chunkSize && pageno == numPages && fastTails
    }
  }

  /** Memory whose content the program does not control but reads: the word in front of
      the offset array, and the words `realloc` adds behind it. */
  datatype Stray = Stray(below: int, grown: int -> int)

  class Header {
    var numPages: int
    var realSize: int
    var offsets: seq<int>

    constructor ()
      ensures numPages == 0 && realSize == 0 && offsets == []
    {
      numPages, realSize, offsets := 0, 0, [];
    }

    ghost predicate Consistent()
      reads this
    {
      numPages == |offsets| && Ordered(offsets)
    }

    ghost predicate Fits(f: File)
      reads this, f
    {
      Consistent() && Indexed(offsets, |f.bytes|)
    }

    ghost function Contents(f: File): Store
      requires Fits(f)
      reads this, f
    {
      View(f.bytes, offsets)
    }
  }

  // ------------------------------------------------------------------------ put_page

  /** Loop over `write` until everything is written; writes are complete. */
  method WriteAll(f: File, data: seq<Byte>) returns (ok: bool)
    modifies f
    ensures ok
    ensures f.bytes == Overwrite(old(f.bytes), old(f.pos), data)
  {
    var cnt := 0;
    while cnt < |data|
      invariant cnt == 0 || cnt == |data|
      invariant cnt == 0 ==> f.bytes == old(f.bytes) && f.pos == old(f.pos)
      invariant cnt == |data| ==> f.bytes == Overwrite(old(f.bytes), old(f.pos), data)
      decreases |data| - cnt
    {
      var rc := f.Write(data);
      if rc > 0 {
        cnt := cnt + rc;
      } else {
        return false;
      }
    }
    ok := true;
  }

  /** Read up to `n` bytes at the current position and write them back at `to`. */
  method CopyBlock(f: File, ghost at: nat, n: nat, to: nat, buffer: array<Byte>) returns (rc: nat)
    requires n <= buffer.Length && f.pos == at <= |f.bytes|
    modifies f, buffer
    ensures rc == Min(n, |old(f.bytes)| - at) && f.pos == to + rc
    ensures f.bytes == Overwrite(old(f.bytes), to, old(f.bytes)[at..at + rc])
  {
    rc := f.Read(buffer, n);
    var _ := f.Lseek(to);
    assert buffer[..rc] == f.bytes[at..at + rc];
    var _ := f.Write(buffer[..rc]);
  }

  /** The bytes up to `tmp` have been moved `delta` towards the front; the rest has not. */
  ghost predicate PartlyDown(was: seq<Byte>, now: seq<Byte>, from: nat, delta: nat, tmp: nat)
    requires delta <= from <= tmp <= |was|
  {
    && |now| == |was|
    && (forall i :: 0 <= i < from - delta || tmp <= i < |was| ==> now[i] == was[i])
    && (forall i :: from - delta <= i < tmp - delta ==> now[i] == was[i + delta])
  }

  lemma DownStep(was: seq<Byte>, now: seq<Byte>, next: seq<Byte>, from: nat, delta: nat, tmp: nat, rc: nat)
    requires 0 < delta <= from <= tmp <= tmp + rc <= |was|
    requires PartlyDown(was, now, from, delta, tmp)
    requires next == Overwrite(now, tmp - delta, now[tmp..tmp + rc])
    ensures PartlyDown(was, next, from, delta, tmp + rc)
  {
    forall i | tmp - delta <= i < tmp + rc - delta
      ensures next[i] == was[i + delta]
    {
      assert next[i] == now[tmp..tmp + rc][i - (tmp - delta)] == now[i + delta];
    }
  }

  /** The page got smaller: copy the remainder towards the front, buffer by buffer from
      left to right, and cut the file.  Equal to one memmove of the whole remainder. */
  method ShiftDown(f: File, from: nat, delta: nat, buffer: array<Byte>)
    requires 0 < delta <= from <= |f.bytes| && 0 < buffer.Length
    modifies f, buffer
    ensures f.bytes == MovedDown(old(f.bytes), from, delta) && f.pos == |old(f.bytes)|
  {
    ghost var was := f.bytes;
    var size := |f.bytes|;
    var tmp := f.Lseek(from);
    while tmp < size
      invariant from <= tmp <= size && f.pos == tmp
      invariant PartlyDown(was, f.bytes, from, delta, tmp)
      decreases size - tmp
    {
      ghost var before := f.bytes;
      var rc := CopyBlock(f, tmp, buffer.Length, tmp - delta, buffer);
      DownStep(was, before, f.bytes, from, delta, tmp, rc);
      tmp := tmp + rc;
      var _ := f.Lseek(tmp);
    }
    f.Ftruncate(size - delta);
    assert f.bytes == MovedDown(was, from, delta);
  }

  /** The last bytes of the file, from `from + tmp` on, have been moved `delta` towards the
      end, past the old end of file; everything before the copies is untouched, and what
      lies between the old end and the copies reads as zeros. */
  ghost predicate PartlyUp(was: seq<Byte>, now: seq<Byte>, from: nat, delta: nat, tmp: nat)
    requires from + tmp <= |was|
  {
    && |now| == |was| + (if from + tmp < |was| then delta else 0)
    && (forall i :: 0 <= i < |now| && i < from + tmp + delta ==> now[i] == if i < |was| then was[i] else 0)
    && (forall i :: from + tmp + delta <= i < |now| ==> now[i] == was[i - delta])
  }

  lemma UpStep(was: seq<Byte>, now: seq<Byte>, next: seq<Byte>, from: nat, delta: nat, tmp: nat, at: nat, n: nat)
    requires 0 < delta && 0 < n && from <= at && at + n == from + tmp <= |was|
    requires PartlyUp(was, now, from, delta, tmp)
    requires next == Overwrite(now, at + delta, now[at..at + n])
    ensures PartlyUp(was, next, from, delta, tmp - n)
  {
    forall i | at + delta <= i < |next|
      ensures next[i] == was[i - delta]
    {
      if i < at + delta + n {
        assert next[i] == now[at..at + n][i - (at + delta)] == now[i - delta];
      }
    }
  }

  lemma UpDone(was: seq<Byte>, now: seq<Byte>, from: nat, delta: nat)
    requires 0 < delta && from <= |was| && PartlyUp(was, now, from, delta, 0)
    ensures now == MovedUp(was, from, delta)
  {
  }

  /** Move `n` bytes, read in one go, from `at` to `delta` further on. */
  method CopyUp(f: File, ghost was: seq<Byte>, from: nat, delta: nat, ghost tmp: nat, at: nat, n: nat, buffer: array<Byte>)
    requires 0 < delta && 0 < n <= buffer.Length && from <= at && at + n == from + tmp <= |was|
    requires PartlyUp(was, f.bytes, from, delta, tmp)
    modifies f, buffer
    ensures PartlyUp(was, f.bytes, from, delta, tmp - n) && f.pos == at + delta + n
  {
    ghost var before := f.bytes;
    var _ := f.Lseek(at);
    var rc := CopyBlock(f, at, n, at + delta, buffer);
    UpStep(was, before, f.bytes, from, delta, tmp, at, n);
  }

  /** The length of the last copy, when `rest` bytes are copied a buffer at a time. */
  function LastCopy(rest: nat, buffer: nat): nat
    requires 0 < buffer
  {
    if rest <= buffer then rest else LastCopy(rest - buffer, buffer)
  }

  /** The page got bigger: copy the remainder towards the end, buffer by buffer from right
      to left, the last (leftmost) copy being the short one.  Equal to one memmove of the
      whole remainder. */
  method ShiftUp(f: File, from: nat, delta: nat, buffer: array<Byte>)
    requires 0 < delta && from <= |f.bytes| && 0 < buffer.Length
    modifies f, buffer
    ensures f.bytes == MovedUp(old(f.bytes), from, delta)
    ensures f.pos == if from == |old(f.bytes)| then old(f.pos) else from + delta + LastCopy(|old(f.bytes)| - from, buffer.Length)
  {
    ghost var was, all := f.bytes, |f.bytes| - from;
    var tmp := |f.bytes| - from;
    while tmp > 0
      invariant tmp <= |was| - from
      invariant tmp > 0 ==> LastCopy(tmp, buffer.Length) == LastCopy(all, buffer.Length)
      invariant (all == 0 ==> tmp == 0) && (tmp == all ==> f.pos == old(f.pos))
      invariant all > 0 && tmp <= 0 ==> f.pos == from + delta + LastCopy(all, buffer.Length)
      invariant PartlyUp(was, f.bytes, from, delta, Max(tmp, 0))
      decreases tmp
    {
      if tmp > buffer.Length {
        CopyUp(f, was, from, delta, tmp, from + tmp - buffer.Length, buffer.Length, buffer);
      } else {
        CopyUp(f, was, from, delta, tmp, from, tmp, buffer);
      }
      tmp := tmp - buffer.Length;
    }
    UpDone(was, f.bytes, from, delta);
  }

  method MoveOffsets(h: Header, p: nat, delta: int)
    requires h.numPages == |h.offsets|
    modifies h`offsets
    ensures h.offsets == Shifted(old(h.offsets), p, -delta)
  {
    ghost var was := h.offsets;
    var tmp := p;
    while tmp < h.numPages
      invariant p <= tmp && h.numPages == |was| == |h.offsets|
      invariant forall i :: 0 <= i < |was| ==> h.offsets[i] == was[i] - if p <= i < tmp then delta else 0
    {
      h.offsets := h.offsets[tmp := h.offsets[tmp] - delta];
      tmp := tmp + 1;
    }
    assert h.offsets == Shifted(was, p, -delta);
  }

  /** Where the seek position is left by moving `size - from` bytes through a buffer. */
  function LeftAt(pos: nat, size: nat, from: nat, curlen: nat, n: nat, buffer: nat): nat
    requires from <= size && 0 < buffer
  {
    if n < curlen then size
    else if curlen < n && from < size then from + (n - curlen) + LastCopy(size - from, buffer)
    else pos
  }

  /** Move everything behind a page of `curlen` bytes, so that it has room for `n`. */
  method ShiftRest(f: File, ghost offsets: seq<int>, ghost p: nat, from: nat, curlen: nat, n: nat, buffer: array<Byte>)
    requires Indexed(offsets, |f.bytes|) && p < |offsets| && 0 < buffer.Length
    requires from == offsets[p] && curlen == Width(offsets, p)
    modifies f, buffer
    ensures f.bytes == Opened(old(f.bytes), offsets, p, n)
    ensures f.pos == LeftAt(old(f.pos), |old(f.bytes)|, from, curlen, n, buffer.Length)
  {
    var delta := curlen - n;
    if delta > 0 {
      ShiftDown(f, from, delta, buffer);
    } else if delta < 0 {
      ShiftUp(f, from, -delta, buffer);
    }
  }

  /** Make page `p` exactly `n` bytes long: move what is behind it, then every end offset
      from `p` on. */
  method Reopen(f: File, h: Header, p: nat, n: nat, buffer: array<Byte>)
    requires h.Fits(f) && p < h.numPages && 0 < buffer.Length
    modifies f, h, buffer
    ensures f.bytes == Opened(old(f.bytes), old(h.offsets), p, n)
    ensures f.pos == LeftAt(old(f.pos), |old(f.bytes)|, old(h.offsets)[p], Width(old(h.offsets), p), n, buffer.Length)
    ensures h.numPages == old(h.numPages)
    ensures var d := n - Width(old(h.offsets), p);
            h.offsets == Shifted(old(h.offsets), p, d) && h.realSize == old(h.realSize) + d
  {
    var curlen := if p == 0 then h.offsets[0] else h.offsets[p] - h.offsets[p - 1];
    var delta := curlen - n;
    h.realSize := h.realSize - delta;
    ShiftRest(f, h.offsets, p, h.offsets[p], curlen, n, buffer);
    MoveOffsets(h, p, delta);
  }

  /** Where page `p` is written when it is replaced by one of `n` bytes: where it starts; but
      page 0 at the offset that the stray word holds or, if that is negative and the seek
      fails, where the shifting has left off. */
  function WrittenAt(stray: Stray, pos: nat, size: nat, offsets: seq<int>, p: nat, n: nat, buffer: nat): nat
    requires p < |offsets| && Ordered(offsets) && offsets[p] <= size && 0 < buffer
  {
    if p > 0 then offsets[p - 1]
    else if 0 <= stray.below then stray.below
    else LeftAt(pos, size, offsets[0], offsets[0], n, buffer)
  }

  /** Make room for a page of `n` bytes in the place of page `p`, and seek to where the program
      believes that page starts. */
  method OpenPage(f: File, h: Header, settings: Settings, p: nat, n: nat, stray: Stray)
    requires h.Fits(f) && p < h.numPages && 0 < settings.chunkSize
    modifies f, h
    ensures f.bytes == Opened(old(f.bytes), old(h.offsets), p, n)
    ensures f.pos == WrittenAt(stray, old(f.pos), |old(f.bytes)|, old(h.offsets), p, n, settings.chunkSize)
    ensures h.numPages == old(h.numPages)
    ensures var d := n - Width(old(h.offsets), p);
            h.offsets == Shifted(old(h.offsets), p, d) && h.realSize == old(h.realSize) + d
  {
    var buffer := new Byte[settings.chunkSize];
    Reopen(f, h, p, n, buffer);
    var _ := f.Lseek(if p == 0 then stray.below else h.offsets[p - 1]);
  }

  /** A short page at the end, left unencoded: it replaces the tail. */
  method PutTail(f: File, h: Header, pageno: nat, data: seq<Byte>)
    requires h.Consistent() && pageno == h.numPages
    modifies f, h`realSize
    ensures f.bytes == Resize(Overwrite(old(f.bytes), End(h.offsets), data), End(h.offsets) + |data|)
    ensures h.realSize == |data| + if pageno == 0 then 0 else old(h.realSize) - (|old(f.bytes)| - End(h.offsets))
  {
    var cnt;
    if pageno > 0 {
      cnt := h.offsets[h.numPages - 1];
      h.realSize := h.realSize - (|f.bytes| - cnt);
      h.realSize := h.realSize + |data|;
    } else {
      h.realSize := |data|;
      cnt := 0;
    }
    var _ := f.Lseek(cnt);
    var _ := WriteAll(f, data);
    f.Ftruncate(cnt + |data|);
  }

  /** Make room in the index for page `pageno`, and seek to where it goes if it is the next
      one. */
  method GrowIndex(f: File, h: Header, pageno: nat, data: seq<Byte>, n: nat, stray: Stray) returns (ok: bool)
    requires h.Consistent() && pageno >= h.numPages
    modifies f`pos, h
    ensures ok <==> pageno == old(h.numPages)
    ensures h.numPages == |h.offsets| == pageno + 1 && h.realSize == old(h.realSize) + |data|
    ensures ok ==> h.offsets == old(h.offsets) + [End(old(h.offsets)) + n] && f.pos == End(old(h.offsets))
    ensures !ok ==> h.offsets[..old(h.numPages)] == old(h.offsets)
    ensures !ok ==> forall i :: old(h.numPages) <= i <= pageno ==> h.offsets[i] == stray.grown(i)
  {
    var delta := pageno - h.numPages;
    h.realSize := h.realSize + |data|;
    var had := h.numPages;
    h.offsets := h.offsets + seq(delta + 1, i => stray.grown(had + i));
    h.numPages := h.numPages + (delta + 1);
    if delta > 0 {
      return false;
    }
    if h.numPages == 1 {
      h.offsets := h.offsets[pageno := n];
      var _ := f.Lseek(0);
    } else {
      h.offsets := h.offsets[pageno := n + h.offsets[pageno - 1]];
      var _ := f.Lseek(h.offsets[pageno - 1]);
    }
    ok := true;
  }

  /** The file after page 0 has been replaced. */
  ghost function ZeroReplaced(file: seq<Byte>, pos: nat, offsets: seq<int>, page: seq<Byte>, settings: Settings, stray: Stray): seq<Byte>
    requires Indexed(offsets, |file|) && offsets != [] && 0 < settings.chunkSize
  {
    Overwrite(Opened(file, offsets, 0, |page|), WrittenAt(stray, pos, |file|, offsets, 0, |page|, settings.chunkSize), page)
  }

  /** The existing page `p` is replaced. */
  method ReplacePage(f: File, h: Header, settings: Settings, p: nat, page: seq<Byte>, stray: Stray)
    requires h.Fits(f) && p < h.numPages && 0 < settings.chunkSize
    modifies f, h
    ensures h.numPages == old(h.numPages)
    ensures var d := |page| - Width(old(h.offsets), p);
            h.offsets == Shifted(old(h.offsets), p, d) && h.realSize == old(h.realSize) + d
    ensures p > 0 ==> f.bytes == old(Spliced(f.bytes, h.offsets, p, page))
    ensures p == 0 ==> f.bytes == ZeroReplaced(old(f.bytes), old(f.pos), old(h.offsets), page, settings, stray)
  {
    SpliceByOpening(f.bytes, h.offsets, p, page);
    OpenPage(f, h, settings, p, |page|, stray);
    var _ := WriteAll(f, page);
  }

  /** `put_page`.  `stray` is what the program finds in memory it does not own: replacing
      page 0 seeks to the word below the offset array, and a page number beyond the end
      leaves the grown part of that array as it came. */
  method PutPage(f: File, h: Header, settings: Settings, codec: Codec, pageno: nat, data: seq<Byte>, stray: Stray)
    returns (rc: int)
    requires h.Consistent()
    requires pageno < h.numPages ==> h.Fits(f) && 0 < settings.chunkSize
    modifies f, h
    // a short page at the end, left unencoded: it replaces the tail
    ensures settings.IsTail(pageno, old(h.numPages), data) ==>
      && rc == 0 && h.offsets == old(h.offsets) && h.numPages == old(h.numPages)
      && f.bytes == Resize(Overwrite(old(f.bytes), End(h.offsets), data), End(h.offsets) + |data|)
      && h.realSize == |data| + if pageno == 0 then 0 else old(h.realSize) - (|old(f.bytes)| - End(h.offsets))
    // the encoder fails: nothing changes
    ensures !settings.IsTail(pageno, old(h.numPages), data) && codec.encode(data) == None ==>
      rc < 0 && f.bytes == old(f.bytes) && unchanged(h)
    // the page exists: it is spliced in, except that page 0 lands wherever `stray` says
    ensures codec.encode(data).Some? && pageno < old(h.numPages) ==>
      var page := codec.encode(data).value;
      var d := |page| - Width(old(h.offsets), pageno);
      && rc == 0 && h.numPages == old(h.numPages)
      && h.offsets == Shifted(old(h.offsets), pageno, d) && h.realSize == old(h.realSize) + d
      && (pageno > 0 ==> f.bytes == old(Spliced(f.bytes, h.offsets, pageno, page)))
      && (pageno == 0 ==> f.bytes == ZeroReplaced(old(f.bytes), old(f.pos), old(h.offsets), page, settings, stray))
    // the page is the next one: it is written over the tail
    ensures !settings.IsTail(pageno, old(h.numPages), data) && codec.encode(data).Some? && pageno == old(h.numPages) ==>
      var page := codec.encode(data).value;
      && rc == 0 && h.numPages == old(h.numPages) + 1
      && h.offsets == old(h.offsets) + [End(old(h.offsets)) + |page|] && h.realSize == old(h.realSize) + |data|
      && f.bytes == Overwrite(old(f.bytes), End(old(h.offsets)), page)
    // the page lies further out: the call fails, but only after the header has grown
    ensures codec.encode(data).Some? && pageno > old(h.numPages) ==>
      && rc == -1 && f.bytes == old(f.bytes)
      && h.numPages == |h.offsets| == pageno + 1 && h.realSize == old(h.realSize) + |data|
      && h.offsets[..old(h.numPages)] == old(h.offsets)
      && forall i :: old(h.numPages) <= i <= pageno ==> h.offsets[i] == stray.grown(i)
  {
    if settings.IsTail(pageno, h.numPages, data) {
      PutTail(f, h, pageno, data);
      return 0;
    }

    var encoded := codec.encode(data);
    if encoded == None {
      return -1;
    }
    var encdata := encoded.value;

    if pageno < h.numPages {
      ReplacePage(f, h, settings, pageno, encdata, stray);
    } else {
      var next := GrowIndex(f, h, pageno, data, |encdata|, stray);
      if !next {
        return -1;
      }
      var _ := WriteAll(f, encdata);
    }
    return 0;
  }

  // ------------------------------------------------------------------------ get_page

  /** `get_page`, reading through the index. */
  method GetPage(f: File, h: Header, settings: Settings, codec: Codec, pageno: int) returns (out: Option<seq<Byte>>)
    requires h.Fits(f)
    ensures pageno < 0 || pageno > h.numPages || (pageno == h.numPages && !settings.fastTails) ==> out == None
    ensures 0 <= pageno < h.numPages ==> out == codec.decode(h.Contents(f).pages[pageno])
    ensures pageno == h.numPages && settings.fastTails ==> out == Some(h.Contents(f).tail)
  {
    if pageno < 0 {
      return None;
    }
    if pageno > h.numPages {
      return None;
    }
    if !settings.fastTails && pageno == h.numPages {
      return None;
    }
    var from, len, raw;
    if pageno == 0 {
      from := 0;
      if h.numPages == 0 {
        len, raw := |f.bytes|, true;
      } else {
        len, raw := h.offsets[0], false;
      }
    } else {
      from := h.offsets[pageno - 1];
      if settings.fastTails && pageno == h.numPages {
        len, raw := |f.bytes| - h.offsets[pageno - 1], true;
      } else {
        len, raw := h.offsets[pageno] - h.offsets[pageno - 1], false;
      }
    }
    if raw {
      assert f.bytes[from..from + len] == h.Contents(f).tail;
      out := Some(f.bytes[from..from + len]);
    } else {
      out := codec.decode(f.bytes[from..from + len]);
    }
  }

  // ------------------------------------------------------------- replacing in the middle

  /** Replacing page `i` of a store of `n` pages with data whose encoding is shorter, equal
      or longer: reading page `i` then gives the new data, reading anything else gives
      what it gave before, and the file changes length by the encoded difference. */
  method ReplaceThenRead(f: File, h: Header, settings: Settings, codec: Codec, i: nat, data: seq<Byte>, stray: Stray, j: nat)
    returns (rc: int, out: Option<seq<Byte>>)
    requires h.Fits(f) && 1 <= i < h.numPages && 0 < settings.chunkSize
    requires j <= h.numPages
    requires codec.Lossless()
    modifies f, h
    ensures rc == 0 <==> codec.encode(data).Some?
    ensures h.Fits(f) && h.numPages == old(h.numPages)
    ensures rc == 0 ==>
      && h.Contents(f) == old(h.Contents(f)).(pages := old(h.Contents(f)).pages[i := codec.encode(data).value])
      && |f.bytes| == old(|f.bytes|) + |codec.encode(data).value| - |old(h.Contents(f)).pages[i]|
    ensures rc == 0 && j == i ==> out == Some(data)
    ensures rc == 0 && j != i && j < h.numPages ==> out == codec.decode(old(h.Contents(f)).pages[j])
    ensures j == h.numPages && settings.fastTails ==> out == Some(old(h.Contents(f)).tail)
    ensures rc != 0 ==> f.bytes == old(f.bytes) && h.Contents(f) == old(h.Contents(f))
  {
    if codec.encode(data).Some? {
      ReplaceView(f.bytes, h.offsets, i, codec.encode(data).value);
    }
    rc := PutPage(f, h, settings, codec, i, data, stray);
    out := GetPage(f, h, settings, codec, j);
  }

  // ---------------------------------------------------------------- runs of put_page

  datatype PutOp = PutOp(pageno: nat, data: seq<Byte>)

  /** The same on a store. */
  function StorePut(s: Store, settings: Settings, codec: Codec, op: PutOp): Store {
    if settings.IsTail(op.pageno, |s.pages|, op.data) then s.(tail := op.data)
    else
      var encoded := codec.encode(op.data);
      if encoded == None then s
      else if op.pageno < |s.pages| then s.(pages := s.pages[op.pageno := encoded.value])
      else Store(s.pages + [encoded.value], LeftOver(s.tail, |encoded.value|))
  }

  function StorePuts(s: Store, settings: Settings, codec: Codec, ops: seq<PutOp>): Store
    decreases |ops|
  {
    if ops == [] then s else StorePuts(StorePut(s, settings, codec, ops[0]), settings, codec, ops[1..])
  }

  /** Every page number is that of a page, other than the first, or the next one. */
  predicate InRange(s: Store, settings: Settings, codec: Codec, ops: seq<PutOp>)
    decreases |ops|
  {
    ops != [] ==>
      && (1 <= ops[0].pageno < |s.pages| || ops[0].pageno == |s.pages|)
      && InRange(StorePut(s, settings, codec, ops[0]), settings, codec, ops[1..])
  }

  /** File and index after one such call. */
  ghost function FileAfter(file: seq<Byte>, offsets: seq<int>, settings: Settings, codec: Codec, op: PutOp): seq<Byte>
    requires Indexed(offsets, |file|)
  {
    if settings.IsTail(op.pageno, |offsets|, op.data) then Resize(Overwrite(file, End(offsets), op.data), End(offsets) + |op.data|)
    else
      var encoded := codec.encode(op.data);
      if encoded == None then file
      else if op.pageno < |offsets| then Spliced(file, offsets, op.pageno, encoded.value)
      else Overwrite(file, End(offsets), encoded.value)
  }

  ghost function OffsetsAfter(offsets: seq<int>, settings: Settings, codec: Codec, op: PutOp): seq<int> {
    var encoded := codec.encode(op.data);
    if settings.IsTail(op.pageno, |offsets|, op.data) || encoded == None then offsets
    else if op.pageno < |offsets| then Shifted(offsets, op.pageno, |encoded.value| - Width(offsets, op.pageno))
    else offsets + [End(offsets) + |encoded.value|]
  }

  lemma AfterView(file: seq<Byte>, offsets: seq<int>, settings: Settings, codec: Codec, op: PutOp)
    requires Indexed(offsets, |file|)
    ensures var file', offsets' := FileAfter(file, offsets, settings, codec, op), OffsetsAfter(offsets, settings, codec, op);
      Indexed(offsets', |file'|) && View(file', offsets') == StorePut(View(file, offsets), settings, codec, op)
  {
    if settings.IsTail(op.pageno, |offsets|, op.data) {
      TailView(file, offsets, op.data);
    } else if codec.encode(op.data).Some? {
      AfterPage(file, offsets, settings, codec, op, codec.encode(op.data).value);
    }
  }

  lemma AfterPage(file: seq<Byte>, offsets: seq<int>, settings: Settings, codec: Codec, op: PutOp, page: seq<Byte>)
    requires Indexed(offsets, |file|) && !settings.IsTail(op.pageno, |offsets|, op.data) && codec.encode(op.data) == Some(page)
    ensures var file', offsets' := FileAfter(file, offsets, settings, codec, op), OffsetsAfter(offsets, settings, codec, op);
      Indexed(offsets', |file'|) && View(file', offsets') == StorePut(View(file, offsets), settings, codec, op)
  {
    if op.pageno < |offsets| {
      AfterReplace(file, offsets, settings, codec, op, page);
    } else {
      AppendView(file, offsets, page);
    }
  }

  lemma AfterReplace(file: seq<Byte>, offsets: seq<int>, settings: Settings, codec: Codec, op: PutOp, page: seq<Byte>)
    requires Indexed(offsets, |file|) && op.pageno < |offsets| && codec.encode(op.data) == Some(page)
    ensures var file', offsets' := FileAfter(file, offsets, settings, codec, op), OffsetsAfter(offsets, settings, codec, op);
      Indexed(offsets', |file'|) && View(file', offsets') == StorePut(View(file, offsets), settings, codec, op)
  {
    ReplaceByWidth(file, offsets, op.pageno, page);
  }

  lemma ReplaceByWidth(file: seq<Byte>, offsets: seq<int>, p: nat, page: seq<Byte>)
    requires Indexed(offsets, |file|) && p < |offsets|
    ensures var file', offsets' := Spliced(file, offsets, p, page), Shifted(offsets, p, |page| - Width(offsets, p));
      && Indexed(offsets', |file'|)
      && View(file', offsets') == View(file, offsets).(pages := View(file, offsets).pages[p := page])
  {
    ReplaceView(file, offsets, p, page);
    assert |View(file, offsets).pages[p]| == Width(offsets, p);
  }

  method PutOne(f: File, h: Header, settings: Settings, codec: Codec, op: PutOp, stray: Stray) returns (rc: int)
    requires h.Fits(f) && 0 < settings.chunkSize
    requires 1 <= op.pageno < h.numPages || op.pageno == h.numPages
    modifies f, h
    ensures h.Fits(f) && h.numPages == |h.offsets|
    ensures h.Contents(f) == StorePut(old(h.Contents(f)), settings, codec, op)
    ensures rc == 0 <==> settings.IsTail(op.pageno, old(h.numPages), op.data) || codec.encode(op.data).Some?
  {
    ghost var file, offsets := f.bytes, h.offsets;
    AfterView(file, offsets, settings, codec, op);
    rc := PutPage(f, h, settings, codec, op.pageno, op.data, stray);
    assert f.bytes == FileAfter(file, offsets, settings, codec, op);
    assert h.offsets == OffsetsAfter(offsets, settings, codec, op);
  }

  /** Any run of `put_page`, failing calls included, is a run on the store the file stands
      for. */
  method PutRun(f: File, h: Header, settings: Settings, codec: Codec, ops: seq<PutOp>, stray: Stray)
    requires h.Fits(f) && 0 < settings.chunkSize && InRange(h.Contents(f), settings, codec, ops)
    modifies f, h
    ensures h.Fits(f) && h.Contents(f) == StorePuts(old(h.Contents(f)), settings, codec, ops)
  {
    var i := 0;
    while i < |ops|
      invariant i <= |ops| && h.Fits(f) && InRange(h.Contents(f), settings, codec, ops[i..])
      invariant StorePuts(h.Contents(f), settings, codec, ops[i..]) == StorePuts(old(h.Contents(f)), settings, codec, ops)
    {
      assert ops[i..][0] == ops[i] && ops[i..][1..] == ops[i + 1..];
      var _ := PutOne(f, h, settings, codec, ops[i], stray);
      i := i + 1;
    }
  }
}
