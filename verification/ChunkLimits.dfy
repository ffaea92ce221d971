/** Where `put_page` stops meaning what it is for, with the exact condition in each case. */
module ChunkLimits {
  import opened Bytes
  import opened ChunkFile
  import opened ChunkIndex
  import opened ChunkStore
  import opened Options

  /** Replacing page 0 writes it where `WrittenAt` says.  For a page that encodes to `n` bytes
      the result is right, whatever the bytes, exactly when that is the start of the file or
      there is nothing to write. */
  lemma PageZeroExact(file: seq<Byte>, offsets: seq<int>, n: nat, at: nat)
    requires Indexed(offsets, |file|) && 0 < |offsets|
    ensures (forall page: seq<Byte> | |page| == n ::
               Overwrite(Opened(file, offsets, 0, n), at, page) == Spliced(file, offsets, 0, page))
       <==> at == 0 || n == 0
  {
    if at == 0 || n == 0 {
      forall page: seq<Byte> | |page| == n
        ensures Overwrite(Opened(file, offsets, 0, n), at, page) == Spliced(file, offsets, 0, page)
      {
        if n == 0 {
          assert page == [];
          assert Overwrite(Opened(file, offsets, 0, 0), 0, page) == Overwrite(Opened(file, offsets, 0, 0), at, page);
        }
        SpliceByOpening(file, offsets, 0, page);
      }
    } else {
      var page := PageZeroWrong(file, offsets, n, at);
    }
  }

  lemma PageZeroWrong(file: seq<Byte>, offsets: seq<int>, n: nat, at: nat) returns (page: seq<Byte>)
    requires Indexed(offsets, |file|) && 0 < |offsets| && 0 < n && 0 < at
    ensures |page| == n
    ensures Overwrite(Opened(file, offsets, 0, n), at, page) != Spliced(file, offsets, 0, page)
  {
    var gap := Opened(file, offsets, 0, n);
    var other: Byte := if |gap| > 0 && gap[0] == 1 then 2 else 1;
    page := seq(n, _ => other);
    var made := Overwrite(gap, at, page);
    assert made[0] != other;
    assert Spliced(file, offsets, 0, page)[0] == page[0] == other;
  }

  // ------------------------------------------------------------------------ real_size

  ghost predicate Readable(pages: seq<seq<Byte>>, codec: Codec) {
    forall i :: 0 <= i < |pages| ==> codec.decode(pages[i]).Some?
  }

  /** The unencoded length of some pages: what `real_size` is to be. */
  ghost function PlainSize(pages: seq<seq<Byte>>, codec: Codec): nat
    requires Readable(pages, codec)
  {
    if pages == [] then 0
    else PlainSize(pages[..|pages| - 1], codec) + |codec.decode(pages[|pages| - 1]).value|
  }

  lemma {:induction false} PlainSizeReplace(pages: seq<seq<Byte>>, codec: Codec, i: nat, page: seq<Byte>)
    requires Readable(pages, codec) && i < |pages| && codec.decode(page).Some?
    ensures Readable(pages[i := page], codec)
    ensures PlainSize(pages[i := page], codec)
         == PlainSize(pages, codec) - |codec.decode(pages[i]).value| + |codec.decode(page).value|
  {
    var n := |pages| - 1;
    if i == n {
      assert pages[i := page][..n] == pages[..n];
    } else {
      assert pages[i := page][..n] == pages[..n][i := page];
      PlainSizeReplace(pages[..n], codec, i, page);
    }
  }

  /** Replacing a page adds the difference of the encoded lengths to `real_size`, so a
      `real_size` that was right stays right exactly when encoding keeps that difference. */
  lemma RealSizeExact(s: Store, codec: Codec, i: nat, data: seq<Byte>, realSize: int)
    requires codec.Lossless() && codec.encode(data).Some?
    requires Readable(s.pages, codec) && i < |s.pages|
    requires realSize == PlainSize(s.pages, codec) + |s.tail|
    ensures var page := codec.encode(data).value;
            var pages' := s.pages[i := page];
            && Readable(pages', codec)
            && (realSize + |page| - |s.pages[i]| == PlainSize(pages', codec) + |s.tail|
                <==> |page| - |s.pages[i]| == |data| - |codec.decode(s.pages[i]).value|)
  {
    PlainSizeReplace(s.pages, codec, i, codec.encode(data).value);
  }

  /** Appending a page writes over the tail without cutting the file.  The tail is gone
      afterwards exactly when it was no longer than the encoded page, and `real_size`,
      which only ever adds the new data, is still right exactly when there was no tail or
      the page encodes to nothing. */
  lemma AppendOverTail(s: Store, codec: Codec, data: seq<Byte>, realSize: int)
    requires codec.Lossless() && codec.encode(data).Some?
    requires Readable(s.pages, codec)
    requires realSize == PlainSize(s.pages, codec) + |s.tail|
    ensures var page := codec.encode(data).value;
            var s' := Store(s.pages + [page], LeftOver(s.tail, |page|));
            && (s'.tail == [] <==> |s.tail| <= |page|)
            && Readable(s'.pages, codec)
            && (realSize + |data| == PlainSize(s'.pages, codec) + |s'.tail| <==> s.tail == [] || page == [])
  {
    var page := codec.encode(data).value;
    assert (s.pages + [page])[..|s.pages|] == s.pages;
  }

  // ----------------------------------------------------------- inputs that show it

  /** Encoding a page as itself. */
  function Plain(): Codec {
    Codec(x => Some(x), x => Some(x))
  }

  /** Encoding a page as twice itself. */
  function Doubling(): Codec {
    Codec(x => Some(x + x), x => if |x| % 2 == 0 then Some(x[..|x| / 2]) else None)
  }

  lemma TheseAreLossless()
    ensures Plain().Lossless() && Doubling().Lossless()
  {
    forall x: seq<Byte>
      ensures Doubling().decode(x + x) == Some(x)
    {
      assert (x + x)[..|x + x| / 2] == x;
    }
  }

  lemma OnePage(page: seq<Byte>, codec: Codec)
    requires codec.decode(page).Some?
    ensures Readable([page], codec) && PlainSize([page], codec) == |codec.decode(page).value|
  {
    var pages := [page];
    assert pages[..0] == [];
    assert PlainSize(pages[..0], codec) == 0;
  }

  /** One byte, stored as two, replaced by two, stored as four: the real size goes from 1 to 3
      where it should go to 2. */
  lemma RealSizeFails(was: seq<Byte>, page: seq<Byte>, data: seq<Byte>)
    requires was == [0, 0] && data == [0, 0] && page == data + data
    ensures Doubling().encode(data) == Some(page)
    ensures Readable([was], Doubling()) && PlainSize([was], Doubling()) == 1
    ensures Readable([page], Doubling()) && PlainSize([page], Doubling()) == 2
    ensures 1 + |page| - |was| == 3
  {
    OnePage(was, Doubling());
    OnePage(page, Doubling());
  }

  /** A page of one byte over a tail of two: one byte of the tail stays, and the real size
      counts three bytes where there are two. */
  lemma AppendFails(tail: seq<Byte>, data: seq<Byte>)
    requires tail == [1, 2] && data == [3]
    ensures Plain().encode(data) == Some(data) && LeftOver(tail, |data|) == [2]
    ensures Readable([data], Plain()) && PlainSize([data], Plain()) + |LeftOver(tail, |data|)| == 2
    ensures |tail| + |data| == 3
  {
    OnePage(data, Plain());
  }

  lemma StaleZero(offsets: seq<int>)
    requires offsets == [1]
    ensures Ordered(offsets) && Decoded(Blank(offsets), Plain()) == Some([0])
  {
    var pages := Blank(offsets);
    assert |pages| == 1 && pages[0] == Zeros(1)[0..1] == [0];
    var none: seq<Byte> := [];
    assert pages[..|pages| - 1] == [];
    assert Plain().decode(pages[0]) == Some([0]) && none + [0] == [0];
    assert Decoded(pages, Plain()) == Joined(Some(none), Some([0]));
  }

  /** A left-over index with one page of one byte: encoding and decoding gives a zero in front
      of the input. */
  method StaleIndexFails(h: Header, input: seq<Byte>, settings: Settings, stray: Stray) returns (out: seq<Byte>)
    requires h.numPages == 1 && h.offsets == [1] && input != [] && 0 < settings.chunkSize
    modifies h
    ensures out == [0] + input
  {
    TheseAreLossless();
    StaleZero(h.offsets);
    WroteUnlessEmpty(input, settings, Plain());
    var rc, fits, ok, decoded := RoundTrip(input, settings, settings, Plain(), h, stray);
    return decoded;
  }
}
