/**
 What the reader of tui/src/png-glyph.ts makes of a file, from its bytes to the
 pixels: for every color type, any number of data chunks and palettes, any
 checksums, and whatever stands after the end.
 */
module PngDecoding {
  import opened Wrappers
  import opened Arithmetic
  import opened Bits
  import opened PngFilter
  import opened Png

  /** A chunk name by its letters. */
  function Name(letters: string): seq<Byte>
    requires forall i :: 0 <= i < |letters| ==> letters[i] as int < 256
  {
    seq(|letters|, i requires 0 <= i < |letters| => letters[i] as int)
  }

  lemma Names()
    ensures Name("IHDR") == IHDR && Name("IDAT") == IDAT && Name("IEND") == IEND
    ensures Name("PLTE") == PLTE && Name("tRNS") == TRNS
  {
  }

  /** The data of the last chunk with this name. */
  function LastOf(cs: seq<Chunk>, name: seq<Byte>): (data: Option<seq<Byte>>)
    ensures data.None? ==> forall c :: c in cs ==> c.name != name
    ensures data.Some? ==>
              exists k :: 0 <= k < |cs| && cs[k] == Chunk(name, data.value)
                && forall j :: k < j < |cs| ==> cs[j].name != name
  {
    if cs == [] then None
    else
      var later := LastOf(cs[1..], name);
      assert forall j :: 0 < j < |cs| ==> cs[j] == cs[1..][j - 1];
      if later.Some? then later else if cs[0].name == name then Some(cs[0].data) else None
  }

  /** The data of all chunks with this name, in order. */
  function AllOf(cs: seq<Chunk>, name: seq<Byte>): (data: seq<seq<Byte>>)
    ensures data == [] <==> forall c :: c in cs ==> c.name != name
  {
    if cs == [] then []
    else (if cs[0].name == name then [cs[0].data] else []) + AllOf(cs[1..], name)
  }

  function Sizes(cs: seq<Chunk>): nat {
    if cs == [] then 0 else |cs[0].data| + Sizes(cs[1..])
  }

  /** Chunks between the header and the end. */
  predicate Inner(cs: seq<Chunk>) {
    forall c :: c in cs ==> Writable(c) && c.name != Name("IHDR") && c.name != Name("IEND")
  }

  function Or<T>(a: Option<T>, b: Option<T>): Option<T> {
    if a.Some? then a else b
  }

  /** The state once these chunks are read; how much compressed data came in is not said. */
  ghost predicate HasRead(cs: seq<Chunk>, r: Reader, read: Reader) {
    read == r.(chunks := r.chunks + |cs|, compressedBytes := read.compressedBytes,
               palette := Or(LastOf(cs, Name("PLTE")), r.palette),
               transparency := Or(LastOf(cs, Name("tRNS")), r.transparency),
               compressed := r.compressed + AllOf(cs, Name("IDAT")))
  }

  /** One chunk: a palette, a transparency table, data, or something the reader skips. */
  lemma OneIsRead(c: Chunk, r: Reader)
    requires c.name != IHDR && r.compressedBytes + |c.data| <= COMPRESSED_BYTES
    ensures Accept(r.(chunks := r.chunks + 1), c).Ok?
    ensures var read := Accept(r.(chunks := r.chunks + 1), c).value;
            && read.compressedBytes <= r.compressedBytes + |c.data|
            && read == r.(chunks := r.chunks + 1, compressedBytes := read.compressedBytes,
                          palette := if c.name == PLTE then Some(c.data) else r.palette,
                          transparency := if c.name == TRNS then Some(c.data) else r.transparency,
                          compressed := r.compressed + (if c.name == IDAT then [c.data] else []))
  {
    assert r.compressed + [] == r.compressed;
  }

  lemma ReadBefore(c: Chunk, cs: seq<Chunk>, r: Reader, first: Reader, read: Reader)
    requires HasRead(cs, first, read)
    requires first == r.(chunks := r.chunks + 1, compressedBytes := first.compressedBytes,
                         palette := if c.name == PLTE then Some(c.data) else r.palette,
                         transparency := if c.name == TRNS then Some(c.data) else r.transparency,
                         compressed := r.compressed + (if c.name == IDAT then [c.data] else []))
    ensures HasRead([c] + cs, r, read)
  {
    Names();
    hide LastOf, AllOf, Name, Or;
    LastBefore(c, cs, PLTE, r.palette);
    LastBefore(c, cs, TRNS, r.transparency);
    AllBefore(c, cs, IDAT, r.compressed);
  }

  lemma LastBefore(c: Chunk, cs: seq<Chunk>, name: seq<Byte>, was: Option<seq<Byte>>)
    ensures Or(LastOf([c] + cs, name), was) == Or(LastOf(cs, name), if c.name == name then Some(c.data) else was)
  {
    hide LastOf;
    assert ([c] + cs)[1..] == cs;
    OneMoreOf([c] + cs, name);
  }

  lemma AllBefore(c: Chunk, cs: seq<Chunk>, name: seq<Byte>, was: seq<seq<Byte>>)
    ensures was + AllOf([c] + cs, name) == was + (if c.name == name then [c.data] else []) + AllOf(cs, name)
  {
    hide AllOf;
    assert ([c] + cs)[1..] == cs;
    OneMoreOf([c] + cs, name);
  }

  /** What reading the chunks adds to the reader's state. */
  lemma {:induction false} InnerChunksAreRead(cs: seq<Chunk>, r: Reader)
    requires Inner(cs) && r.compressedBytes + Sizes(cs) <= COMPRESSED_BYTES
    ensures Fold(cs, r).Ok? && HasRead(cs, r, Fold(cs, r).value)
    decreases |cs|
  {
    hide LastOf, AllOf, Accept, Name, Inner, HasRead, Sizes;
    if cs == [] {
      NothingIsRead(r);
    } else {
      FirstIsInner(cs);
      OneIsRead(cs[0], r);
      var first := Accept(r.(chunks := r.chunks + 1), cs[0]).value;
      InnerChunksAreRead(cs[1..], first);
      ReadBefore(cs[0], cs[1..], r, first, Fold(cs[1..], first).value);
      assert cs == [cs[0]] + cs[1..];
    }
  }

  lemma NothingIsRead(r: Reader)
    ensures Fold([], r) == Ok(r) && HasRead([], r, r)
  {
    NothingOf(Name("PLTE"));
    NothingOf(Name("tRNS"));
    NothingOf(Name("IDAT"));
    assert r.compressed + [] == r.compressed;
  }

  lemma FirstIsInner(cs: seq<Chunk>)
    requires Inner(cs) && cs != []
    ensures cs[0].name != IHDR && Inner(cs[1..]) && Sizes(cs) == |cs[0].data| + Sizes(cs[1..])
  {
    Names();
    hide Name;
    assert cs[0] in cs;
  }

  lemma NothingOf(name: seq<Byte>)
    ensures LastOf([], name) == None && AllOf([], name) == []
  {
  }

  lemma OneMoreOf(cs: seq<Chunk>, name: seq<Byte>)
    requires cs != []
    ensures LastOf(cs, name) == Or(LastOf(cs[1..], name), if cs[0].name == name then Some(cs[0].data) else None)
    ensures AllOf(cs, name) == (if cs[0].name == name then [cs[0].data] else []) + AllOf(cs[1..], name)
  {
  }

  /** A number of four bytes, the most significant first. */
  function BigEndian(b: seq<Byte>, at: nat): nat
    requires at + 4 <= |b|
  {
    ((b[at] as int * 256 + b[at + 1] as int) * 256 + b[at + 2] as int) * 256 + b[at + 3] as int
  }

  lemma BigEndianIsRead(b: seq<Byte>, at: nat)
    requires at + 4 <= |b|
    ensures ReadU32(b[at..]) == BigEndian(b, at)
  {
  }

  /** Samples of a pixel, by color type: grey, RGB, palette, grey with alpha, RGB with alpha. */
  function Samples(colorType: int): nat {
    match colorType
    case 0 => 1
    case 2 => 3
    case 3 => 1
    case 4 => 2
    case _ => 4
  }

  /** The header asks for a format and a size the reader takes. */
  predicate HeaderFits(h: seq<Byte>)
    requires |h| == 13
  {
    var width, height := BigEndian(h, 0), BigEndian(h, 4);
    && h[8] == 8 && h[9] in {0, 2, 3, 4, 6} && h[12] == 0
    && 1 <= width <= 4096 && 1 <= height <= 4096 && width * 4 * height <= 16 * 1024 * 1024
  }

  /** The reader after the header. */
  function HeaderRead(h: seq<Byte>): Reader
    requires |h| == 13
  {
    Reader(BigEndian(h, 0), BigEndian(h, 4), h[9], Samples(h[9]), None, None, [], 1, 0, true)
  }

  lemma HeaderIsRead(h: seq<Byte>)
    requires |h| == 13
    ensures var read := Accept(NEW_READER.(chunks := 1), Chunk(IHDR, h));
            if HeaderFits(h) then read == Ok(HeaderRead(h)) else read.Err?
  {
    hide ReadU32, BigEndian;
    BigEndianIsRead(h, 0);
    BigEndianIsRead(h, 4);
    assert h[0..] == h;
    if BigEndian(h, 4) > 0 {
      AreaFits(BigEndian(h, 0), BigEndian(h, 4));
    }
  }

  lemma {:induction false} SizesWithin(cs: seq<Chunk>, crcs: seq<seq<Byte>>)
    requires |crcs| == |cs| && forall c :: c in cs ==> Writable(c)
    ensures Sizes(cs) <= |WithChecksums(cs, crcs)|
  {
    if cs != [] {
      SizesWithin(cs[1..], crcs[1..]);
    }
  }

  lemma HeaderAndInner(header: Chunk, cs: seq<Chunk>)
    requires header.name == IHDR && Writable(header) && Inner(cs)
    ensures forall c :: c in [header] + cs ==> Writable(c) && c.name != IEND
  {
    Names();
  }

  /** Counting the end as well. */
  lemma CountedOnce(cs: seq<Chunk>, r: Reader, read: Reader)
    requires HasRead(cs, r, read)
    ensures HasRead(cs, r.(chunks := r.chunks + 1), read.(chunks := read.chunks + 1))
  {
    hide LastOf, AllOf, Name, Or;
  }

  /** A file: signature, header, chunks, end, each with any checksum, and trailing bytes. */
  function File(h: seq<Byte>, cs: seq<Chunk>, crcs: seq<seq<Byte>>, end: seq<Byte>, crc: seq<Byte>, rest: seq<Byte>)
    : seq<Byte>
    requires |h| == 13 && Inner(cs) && |crcs| == |cs| + 1 && |end| < WORD
  {
    Names();
    HeaderAndInner(Chunk(Name("IHDR"), h), cs);
    [137, 80, 78, 71, 13, 10, 26, 10]
    + ChunkBytes([Chunk(Name("IHDR"), h)] + cs, crcs, Chunk(Name("IEND"), end), crc, rest)
  }

  lemma FileIsRead(h: seq<Byte>, cs: seq<Chunk>, crcs: seq<seq<Byte>>, end: seq<Byte>, crc: seq<Byte>,
                   rest: seq<Byte>)
    requires |h| == 13 && Inner(cs) && |crcs| == |cs| + 1 && |end| < WORD && Checksums(crcs) && |crc| == 4
    requires |File(h, cs, crcs, end, crc, rest)| <= COMPRESSED_BYTES && |cs| + 2 <= MAX_CHUNKS
    ensures var read := ReadChunks(File(h, cs, crcs, end, crc, rest)[8..], NEW_READER);
            if !HeaderFits(h) then read.Err?
            else read.Ok? && read.value.1 && HasRead(cs, HeaderRead(h).(chunks := 2), read.value.0)
  {
    Names();
    hide ReadChunks, WithChecksum, Accept, HeaderFits, HasRead, Name;
    var header, last := Chunk(IHDR, h), Chunk(IEND, end);
    var all := [header] + cs;
    HeaderAndInner(header, cs);
    var file := File(h, cs, crcs, end, crc, rest);
    assert file[8..] == ChunkBytes(all, crcs, last, crc, rest);
    LoopIgnoresChecksums(all, crcs, last, crc, rest, NEW_READER);
    HeaderIsRead(h);
    SizesWithin(all, crcs);
    assert all[1..] == cs;
    if HeaderFits(h) {
      InnerChunksAreRead(cs, HeaderRead(h));
      CountedOnce(cs, HeaderRead(h), Fold(cs, HeaderRead(h)).value);
    }
  }

  lemma SamplesAreChannels(colorType: int)
    requires colorType in {0, 2, 3, 4, 6}
    ensures Samples(colorType) == ChannelsOf(colorType)
  {
  }

  /** The image in terms of the inflated scanlines. */
  ghost predicate Pictures(h: seq<Byte>, cs: seq<Chunk>, raw: seq<Byte>, image: Image)
    requires |h| == 13 && HeaderFits(h)
  {
    var colorType: int := h[9];
    && image.width == BigEndian(h, 0) && image.height == BigEndian(h, 4)
    && exists scan ::
         && Unfilter(raw, image.width, image.height, Samples(colorType)) == Ok(scan)
         && PixelsShow(scan, image.width * image.height, colorType, LastOf(cs, Name("PLTE")),
                       LastOf(cs, Name("tRNS")), image.pixels)
  }

  lemma PixelsShowExactly(scan: seq<Byte>, count: nat, colorType: int, palette: Option<seq<Byte>>,
                          transparency: Option<seq<Byte>>, pixels: seq<Byte>)
    requires count * ChannelsOf(colorType) <= |scan|
    ensures Pixels(scan, count, colorType, palette, transparency) == Ok(pixels)
       <==> PixelsShow(scan, count, colorType, palette, transparency, pixels)
  {
    hide Pixels, HasEntry, ChannelsOf;
    PixelsAreExact(scan, count, colorType, palette, transparency);
    var found := Pixels(scan, count, colorType, palette, transparency);
    if PixelsShow(scan, count, colorType, palette, transparency, pixels) {
      forall p | 0 <= p < count && colorType == 3 ensures HasEntry(palette, scan[p]) {
        assert PixelShows(scan, p, colorType, palette, transparency, pixels[4 * p..4 * p + 4]);
      }
      assert EntriesExist(scan, count, colorType, palette);
      assert found.Ok?;
      forall p | 0 <= p < count ensures found.value[4 * p..4 * p + 4] == pixels[4 * p..4 * p + 4] {
        OnePicture(scan, p, colorType, palette, transparency, found.value[4 * p..4 * p + 4], pixels[4 * p..4 * p + 4]);
      }
      EqualByFours(found.value, pixels, count);
    }
  }

  lemma OnePicture(scan: seq<Byte>, p: nat, colorType: int, palette: Option<seq<Byte>>,
                   transparency: Option<seq<Byte>>, a: seq<Byte>, b: seq<Byte>)
    requires PixelShows(scan, p, colorType, palette, transparency, a)
    requires PixelShows(scan, p, colorType, palette, transparency, b)
    ensures a == b
  {
  }

  lemma {:induction false} EqualByFours(a: seq<Byte>, b: seq<Byte>, count: nat)
    requires |a| == 4 * count == |b|
    requires forall p :: 0 <= p < count ==> a[4 * p..4 * p + 4] == b[4 * p..4 * p + 4]
    ensures a == b
  {
    if count > 0 {
      var n := count - 1;
      forall p | 0 <= p < n ensures a[..4 * n][4 * p..4 * p + 4] == b[..4 * n][4 * p..4 * p + 4] {
        assert a[..4 * n][4 * p..4 * p + 4] == a[4 * p..4 * p + 4];
        assert b[..4 * n][4 * p..4 * p + 4] == b[4 * p..4 * p + 4];
      }
      EqualByFours(a[..4 * n], b[..4 * n], n);
      assert a == a[..4 * n] + a[4 * n..4 * n + 4] && b == b[..4 * n] + b[4 * n..4 * n + 4];
    }
  }

  lemma ExpandsExactly(r: Reader, h: seq<Byte>, cs: seq<Chunk>, raw: seq<Byte>, image: Image)
    requires |h| == 13 && HeaderFits(h) && HeaderKnown(r) && r.sawHeader
    requires r.width == BigEndian(h, 0) && r.height == BigEndian(h, 4) && r.colorType == h[9]
    requires r.palette == LastOf(cs, Name("PLTE")) && r.transparency == LastOf(cs, Name("tRNS"))
    ensures Expand(r, raw) == Ok(image) <==> Pictures(h, cs, raw, image)
  {
    hide Unfilter, PixelsShow, Pixels, LastOf, Name, BigEndian;
    SamplesAreChannels(r.colorType);
    PixelsFill(r.width, r.height, r.channels);
    var scan := Unfilter(raw, r.width, r.height, r.channels);
    if scan.Ok? {
      PixelsShowExactly(scan.value, r.width * r.height, r.colorType, r.palette, r.transparency, image.pixels);
    }
  }

  /** A filter byte and the samples of every row. */
  function ScanlineBytes(width: nat, samples: nat, height: nat): nat {
    (width * samples + 1) * height
  }

  /** The scanlines: all data, joined, inflated. */
  function Inflated(h: seq<Byte>, cs: seq<Chunk>, z: Zlib): Option<seq<Byte>>
    requires |h| == 13
  {
    z.inflate(Concat(AllOf(cs, Name("IDAT"))), ScanlineBytes(BigEndian(h, 0), Samples(h[9]), BigEndian(h, 4)))
  }

  /**
   The whole decoder, for every color type: a file of at most 128 chunks within
   the size limit decodes to an image exactly when the header is one the reader
   takes, there is data, it inflates to scanlines that can be unfiltered, and
   the image shows them with the last palette and transparency table.
   */
  lemma DecodesExactly(h: seq<Byte>, cs: seq<Chunk>, crcs: seq<seq<Byte>>, end: seq<Byte>, crc: seq<Byte>,
                       rest: seq<Byte>, z: Zlib, image: Image)
    requires |h| == 13 && Inner(cs) && |crcs| == |cs| + 1 && |end| < WORD && Checksums(crcs) && |crc| == 4
    requires |File(h, cs, crcs, end, crc, rest)| <= 2 * 1024 * 1024 && |cs| + 2 <= 128
    ensures Decoded(File(h, cs, crcs, end, crc, rest), z) == Ok(image)
       <==> && HeaderFits(h) && AllOf(cs, Name("IDAT")) != []
            && Inflated(h, cs, z).Some? && Pictures(h, cs, Inflated(h, cs, z).value, image)
  {
    hide ReadChunks, Expand, Pictures, LastOf, AllOf, Name, ChunkBytes, BigEndian, Samples;
    FileIsRead(h, cs, crcs, end, crc, rest);
    var file := File(h, cs, crcs, end, crc, rest);
    assert file[..8] == [137, 80, 78, 71, 13, 10, 26, 10];
    if HeaderFits(h) {
      var r := ReadChunks(file[8..], NEW_READER).value.0;
      assert r.compressed == AllOf(cs, Name("IDAT"));
      SamplesAreChannels(h[9]);
      assert HeaderKnown(r);
      ExpansionIsBounded(r);
      var raw := z.inflate(Concat(r.compressed), Expected(r));
      if raw.Some? {
        ExpandsExactly(r, h, cs, raw.value, image);
      }
    }
  }
}
