/**
 The PNG writer of tui/src/native-image-thumbnail.ts and the reader of
 tui/src/png-glyph.ts: chunks (PNG specification, section 5.3), the reader's
 chunk loop, and images that come back as they were written.
 */
module Png {
  import opened Wrappers
  import opened Bits
  import opened Arithmetic
  import opened Crc
  import opened PngFilter

  const COMPRESSED_BYTES: nat := 2 * 1024 * 1024
  const MAX_CHUNKS: nat := 128
  const MAX_DIMENSION: nat := 4096
  const RGBA_BYTES: nat := 16 * 1024 * 1024
  const WORD: nat := 0x1_0000_0000

  const SIGNATURE: seq<Byte> := [137, 80, 78, 71, 13, 10, 26, 10]
  const IHDR: seq<Byte> := [73, 72, 68, 82]
  const IDAT: seq<Byte> := [73, 68, 65, 84]
  const IEND: seq<Byte> := [73, 69, 78, 68]
  const PLTE: seq<Byte> := [80, 76, 84, 69]
  const TRNS: seq<Byte> := [116, 82, 78, 83]

  datatype Image = Image(width: nat, height: nat, pixels: seq<Byte>)

  datatype Chunk = Chunk(name: seq<Byte>, data: seq<Byte>)

  /** The compressor; `inflate` gives nothing when the data is broken or longer than allowed. */
  datatype Zlib = Zlib(deflate: seq<Byte> -> seq<Byte>, inflate: (seq<Byte>, nat) -> Option<seq<Byte>>)

  // ----- numbers

  /** `writeUInt32BE`. */
  function Be32(n: nat): (b: seq<Byte>)
    requires n < WORD
    ensures |b| == 4
  {
    [n / 0x100_0000, n / 0x1_0000 % 0x100, n / 0x100 % 0x100, n % 0x100]
  }

  /** `readU32`. */
  function ReadU32(b: seq<Byte>): (n: nat)
    requires |b| >= 4
    ensures n < WORD
  {
    0x100_0000 * b[0] as int + 0x1_0000 * b[1] as int + 0x100 * b[2] as int + b[3] as int
  }

  lemma ReadWhatWasWritten(n: nat, rest: seq<Byte>)
    requires n < WORD
    ensures ReadU32(Be32(n) + rest) == n
  {
    var q := n / 0x100;
    var p := q / 0x100;
    assert n == 0x100 * q + n % 0x100 && q == 0x100 * p + q % 0x100 && p == 0x100 * (p / 0x100) + p % 0x100;
    assert p == n / 0x1_0000 && p / 0x100 == n / 0x100_0000;
  }

  // ----- writing

  /** The bytes of a chunk: length, name, data and the CRC of name and data. */
  function Write(c: Chunk): seq<Byte>
    requires |c.data| < WORD
  {
    CrcFitsInFourBytes(c.name + c.data);
    Be32(|c.data|) + c.name + c.data + Be32(Crc32Of(c.name + c.data))
  }

  predicate Writable(c: Chunk) {
    |c.name| == 4 && |c.data| < WORD
  }

  function WriteAll(cs: seq<Chunk>): seq<Byte>
    requires forall c :: c in cs ==> Writable(c)
  {
    if cs == [] then []
    else
      assert Writable(cs[0]);
      Write(cs[0]) + WriteAll(cs[1..])
  }

  function Header(width: nat, height: nat): seq<Byte>
    requires width < WORD && height < WORD
  {
    Be32(width) + Be32(height) + [8, 6, 0, 0, 0]
  }

  /** An image whose pixels are four bytes each. */
  predicate Rgba(image: Image) {
    && image.width > 0 && image.width < WORD && image.height < WORD
    && |image.pixels| == image.width * 4 * image.height
  }

  /** Every row unfiltered: a zero in front of it. */
  function Scanlines(image: Image): seq<Byte>
    requires Rgba(image)
  {
    MulMonotone(1, image.width, 4);
    Filtered(image.pixels, seq(image.height, _ => 0), image.width * 4, 4)
  }

  predicate Encodable(image: Image, z: Zlib) {
    Rgba(image) && |z.deflate(Scanlines(image))| < WORD
  }

  function ImageChunks(image: Image, z: Zlib): seq<Chunk>
    requires Encodable(image, z)
  {
    [Chunk(IHDR, Header(image.width, image.height)), Chunk(IDAT, z.deflate(Scanlines(image))), Chunk(IEND, [])]
  }

  function Encoded(image: Image, z: Zlib): seq<Byte>
    requires Encodable(image, z)
  {
    SIGNATURE + WriteAll(ImageChunks(image, z))
  }

  // ----- reading

  datatype Reader = Reader(
    width: nat, height: nat, colorType: int, channels: nat,
    palette: Option<seq<Byte>>, transparency: Option<seq<Byte>>,
    compressed: seq<seq<Byte>>, chunks: nat, compressedBytes: nat, sawHeader: bool)

  const NEW_READER := Reader(0, 0, -1, 0, None, None, [], 0, 0, false)

  function ChannelsOf(colorType: int): (n: nat)
    ensures 1 <= n <= 4
  {
    if colorType == 0 || colorType == 3 then 1 else if colorType == 2 then 3 else if colorType == 4 then 2 else 4
  }

  predicate DimensionsFit(width: nat, height: nat) {
    && width > 0 && height > 0 && width <= MAX_DIMENSION && height <= MAX_DIMENSION
    && width <= RGBA_BYTES / 4 / height
  }

  /** What the header check has established once a header was seen. */
  predicate HeaderKnown(r: Reader) {
    r.sawHeader ==> DimensionsFit(r.width, r.height) && r.channels == ChannelsOf(r.colorType)
  }

  /** One counted chunk other than the end. */
  function Accept(r: Reader, c: Chunk): (next: Result<Reader, PngError>)
    ensures next.Ok? && HeaderKnown(r) ==> HeaderKnown(next.value)
  {
    if c.name == IHDR then
      if r.sawHeader || r.chunks != 1 || |c.data| != 13 then Err(BadHeader)
      else
        var colorType := c.data[9];
        if c.data[8] != 8 || colorType !in {0, 2, 3, 4, 6} || c.data[12] != 0 then Err(UnsupportedFormat)
        else
          var width, height := ReadU32(c.data), ReadU32(c.data[4..]);
          if !DimensionsFit(width, height) then Err(BadDimensions)
          else Ok(r.(sawHeader := true, width := width, height := height, colorType := colorType,
              channels := ChannelsOf(colorType)))
    else if c.name == PLTE then Ok(r.(palette := Some(c.data)))
    else if c.name == TRNS then Ok(r.(transparency := Some(c.data)))
    else if c.name == IDAT then
      if r.compressedBytes + |c.data| > COMPRESSED_BYTES then Err(TooLarge)
      else Ok(r.(compressedBytes := r.compressedBytes + |c.data|, compressed := r.compressed + [c.data]))
    else Ok(r)
  }

  /** The next chunk of the bytes, when a whole one is there. */
  function Next(bytes: seq<Byte>): Result<Chunk, PngError>
    requires |bytes| >= 12
  {
    var length := ReadU32(bytes);
    if length > |bytes| - 12 then Err(ChunkExceeds) else Ok(Chunk(bytes[4..8], bytes[8..8 + length]))
  }

  /** The chunk loop: the reader's state, and whether the end was seen. */
  function ReadChunks(bytes: seq<Byte>, r: Reader): (out: Result<(Reader, bool), PngError>)
    ensures out.Ok? && HeaderKnown(r) ==> HeaderKnown(out.value.0)
    decreases |bytes|, 0
  {
    if |bytes| < 12 then Ok((r, false))
    else if r.chunks + 1 > MAX_CHUNKS then Err(TooManyChunks)
    else
      match Next(bytes)
      case Err(e) => Err(e)
      case Ok(c) =>
        ReadOn(r.(chunks := r.chunks + 1), c, bytes[12 + |c.data|..])
  }

  /** One chunk, counted, and what follows it. */
  function ReadOn(r: Reader, c: Chunk, rest: seq<Byte>): (out: Result<(Reader, bool), PngError>)
    ensures out.Ok? && HeaderKnown(r) ==> HeaderKnown(out.value.0)
    decreases |rest|, 1
  {
    if c.name == IEND then Ok((r, true))
    else
      match Accept(r, c)
      case Err(e) => Err(e)
      case Ok(next) => ReadChunks(rest, next)
  }

  /** The four bytes of one pixel. */
  function Pixel(scan: seq<Byte>, p: nat, colorType: int, palette: Option<seq<Byte>>, transparency: Option<seq<Byte>>)
    : (out: Result<seq<Byte>, PngError>)
    requires (p + 1) * ChannelsOf(colorType) <= |scan|
    ensures out.Ok? ==> |out.value| == 4
  {
    var s := p * ChannelsOf(colorType);
    if colorType == 0 then Ok([scan[s], scan[s], scan[s], 255])
    else if colorType == 2 then Ok([scan[s], scan[s + 1], scan[s + 2], 255])
    else if colorType == 3 then
      var index := scan[s];
      if palette.None? || index * 3 + 2 >= |palette.value| then Err(PaletteIndex)
      else
        var alpha: Byte := if transparency.Some? && index < |transparency.value| then transparency.value[index]
            else 255;
        Ok([palette.value[index * 3], palette.value[index * 3 + 1], palette.value[index * 3 + 2], alpha])
    else if colorType == 4 then Ok([scan[s], scan[s], scan[s], scan[s + 1]])
    else Ok([scan[s], scan[s + 1], scan[s + 2], scan[s + 3]])
  }

  /** The first `count` pixels as RGBA. */
  function Pixels(scan: seq<Byte>, count: nat, colorType: int, palette: Option<seq<Byte>>,
      transparency: Option<seq<Byte>>)
    : (out: Result<seq<Byte>, PngError>)
    requires count * ChannelsOf(colorType) <= |scan|
    ensures out.Ok? ==> |out.value| == 4 * count
  {
    if count == 0 then Ok([])
    else
      match Pixels(scan, count - 1, colorType, palette, transparency)
      case Err(e) => Err(e)
      case Ok(before) =>
        match Pixel(scan, count - 1, colorType, palette, transparency)
        case Err(e) => Err(e)
        case Ok(four) => Ok(before + four)
  }

  /** The palette has an entry for the index. */
  predicate HasEntry(palette: Option<seq<Byte>>, index: nat) {
    palette.Some? && 3 * index + 2 < |palette.value|
  }

  /**
   What a pixel becomes, by the color type of the header: a grey sample is used
   three times, a palette index is looked up, and alpha is 255 unless the type
   or the transparency table gives one.
   */
  predicate PixelShows(scan: seq<Byte>, p: nat, colorType: int, palette: Option<seq<Byte>>,
                       transparency: Option<seq<Byte>>, rgba: seq<Byte>)
  {
    match colorType
    case 0 => p < |scan| && rgba == [scan[p], scan[p], scan[p], 255]
    case 2 => 3 * p + 2 < |scan| && rgba == [scan[3 * p], scan[3 * p + 1], scan[3 * p + 2], 255]
    case 3 =>
      p < |scan| && HasEntry(palette, scan[p])
      && (var index: nat := scan[p];
          var alpha := if transparency.Some? && index < |transparency.value| then transparency.value[index] else 255;
          rgba == palette.value[3 * index..3 * index + 3] + [alpha])
    case 4 => 2 * p + 1 < |scan| && rgba == [scan[2 * p], scan[2 * p], scan[2 * p], scan[2 * p + 1]]
    case _ => 4 * p + 3 < |scan| && rgba == scan[4 * p..4 * p + 4]
  }

  lemma PixelIsExact(scan: seq<Byte>, p: nat, colorType: int, palette: Option<seq<Byte>>,
                     transparency: Option<seq<Byte>>)
    requires (p + 1) * ChannelsOf(colorType) <= |scan|
    ensures p < |scan|
    ensures match Pixel(scan, p, colorType, palette, transparency)
            case Ok(rgba) =>
              && PixelShows(scan, p, colorType, palette, transparency, rgba)
              && (colorType == 3 ==> HasEntry(palette, scan[p]))
            case Err(e) => e == PaletteIndex && colorType == 3 && !HasEntry(palette, scan[p])
  {
    if colorType == 0 || colorType == 3 {
    } else if colorType == 2 {
      assert (p + 1) * 3 <= |scan|;
    } else if colorType == 4 {
      assert (p + 1) * 2 <= |scan|;
    } else {
      assert (p + 1) * 4 <= |scan|;
    }
  }

  /** Four bytes for every pixel, each as its color type says. */
  ghost predicate PixelsShow(scan: seq<Byte>, count: nat, colorType: int, palette: Option<seq<Byte>>,
                             transparency: Option<seq<Byte>>, pixels: seq<Byte>)
  {
    && |pixels| == 4 * count
    && forall p :: 0 <= p < count ==> PixelShows(scan, p, colorType, palette, transparency, pixels[4 * p..4 * p + 4])
  }

  /** Where indices are looked up, the palette has an entry for each of them. */
  predicate EntriesExist(scan: seq<Byte>, count: nat, colorType: int, palette: Option<seq<Byte>>)
    requires count <= |scan|
  {
    colorType == 3 ==> forall p :: 0 <= p < count ==> HasEntry(palette, scan[p])
  }

  /** Expanding fails exactly when a palette entry is missing; otherwise each pixel is what its color type says. */
  lemma {:induction false} PixelsAreExact(scan: seq<Byte>, count: nat, colorType: int, palette: Option<seq<Byte>>,
                                          transparency: Option<seq<Byte>>)
    requires count * ChannelsOf(colorType) <= |scan|
    ensures count <= |scan|
    ensures match Pixels(scan, count, colorType, palette, transparency)
            case Ok(rgba) =>
              && PixelsShow(scan, count, colorType, palette, transparency, rgba)
              && EntriesExist(scan, count, colorType, palette)
            case Err(e) => e == PaletteIndex && !EntriesExist(scan, count, colorType, palette)
  {
    hide Pixel, PixelShows, HasEntry, ChannelsOf;
    if count > 0 {
      hide PixelsShow;
      MulMonotone(count - 1, count, ChannelsOf(colorType));
      PixelsAreExact(scan, count - 1, colorType, palette, transparency);
      PixelIsExact(scan, count - 1, colorType, palette, transparency);
      var before := Pixels(scan, count - 1, colorType, palette, transparency);
      var four := Pixel(scan, count - 1, colorType, palette, transparency);
      if before.Ok? && four.Ok? {
        OneMoreShows(scan, count - 1, colorType, palette, transparency, before.value, four.value);
      }
    }
  }

  lemma OneMoreShows(scan: seq<Byte>, count: nat, colorType: int, palette: Option<seq<Byte>>,
                     transparency: Option<seq<Byte>>, before: seq<Byte>, four: seq<Byte>)
    requires PixelsShow(scan, count, colorType, palette, transparency, before)
    requires |four| == 4 && PixelShows(scan, count, colorType, palette, transparency, four)
    ensures PixelsShow(scan, count + 1, colorType, palette, transparency, before + four)
  {
    hide PixelShows;
    forall p | 0 <= p <= count
      ensures PixelShows(scan, p, colorType, palette, transparency, (before + four)[4 * p..4 * p + 4])
    {
      FourOf(before, four, p);
    }
  }

  lemma FourOf(before: seq<Byte>, four: seq<Byte>, p: nat)
    requires |four| == 4 && 4 * p <= |before|
    ensures 4 * p == |before| ==> (before + four)[4 * p..4 * p + 4] == four
    ensures 4 * p + 4 <= |before| ==> (before + four)[4 * p..4 * p + 4] == before[4 * p..4 * p + 4]
  {
  }

  lemma PixelsFill(width: nat, height: nat, channels: nat)
    ensures width * height * channels == width * channels * height
  {
  }

  /** Inflated scanlines to an image. */
  function Expand(r: Reader, raw: seq<Byte>): Result<Image, PngError>
    requires HeaderKnown(r) && r.sawHeader
  {
    match Unfilter(raw, r.width, r.height, r.channels)
    case Err(e) => Err(e)
    case Ok(scan) =>
      PixelsFill(r.width, r.height, r.channels);
      match Pixels(scan, r.width * r.height, r.colorType, r.palette, r.transparency)
      case Err(e) => Err(e)
      case Ok(pixels) => Ok(Image(r.width, r.height, pixels))
  }

  /** The bytes of the scanlines of an image with this header. */
  function Expected(r: Reader): nat {
    (r.width * r.channels + 1) * r.height
  }

  /** From the chunks to the image. */
  function Assemble(r: Reader, sawEnd: bool, z: Zlib): Result<Image, PngError>
    requires HeaderKnown(r)
  {
    if !r.sawHeader || !sawEnd || r.width == 0 || r.height == 0 || r.compressed == [] then Err(Incomplete)
    else if Expected(r) > RGBA_BYTES + r.height then Err(TooLarge)
    else
      match z.inflate(Concat(r.compressed), Expected(r))
      case None => Err(BadCompression)
      case Some(raw) => Expand(r, raw)
  }

  /** `decodePngDataUri`, from the decoded bytes on. */
  function Decoded(bytes: seq<Byte>, z: Zlib): Result<Image, PngError> {
    if |bytes| > COMPRESSED_BYTES then Err(TooLarge)
    else if |bytes| < 8 || bytes[..8] != SIGNATURE then Err(BadSignature)
    else
      match ReadChunks(bytes[8..], NEW_READER)
      case Err(e) => Err(e)
      case Ok((r, sawEnd)) => Assemble(r, sawEnd, z)
  }

  /** The reader's second size check can never fail: the header check already bounds the scanlines. */
  lemma ExpansionIsBounded(r: Reader)
    requires HeaderKnown(r) && r.sawHeader
    ensures Expected(r) <= RGBA_BYTES + r.height
  {
    AreaFits(r.width, r.height);
    MulMonotone(r.channels, 4, r.width);
    MulMonotone(r.width * r.channels, r.width * 4, r.height);
    assert (r.width * r.channels + 1) * r.height == r.height * (r.width * r.channels) + r.height;
  }

  // ----- the chunk loop recovers what was written

  /** What the chunks before the end mean, one after the other. */
  function Fold(cs: seq<Chunk>, r: Reader): Result<Reader, PngError>
    decreases |cs|
  {
    if cs == [] then Ok(r)
    else
      match Accept(r.(chunks := r.chunks + 1), cs[0])
      case Err(e) => Err(e)
      case Ok(next) => Fold(cs[1..], next)
  }

  /** The bytes of a chunk that ends in any four bytes at all. */
  function WithChecksum(c: Chunk, crc: seq<Byte>): seq<Byte>
    requires Writable(c)
  {
    Be32(|c.data|) + c.name + c.data + crc
  }

  /** The chunks one after the other, each with a checksum of its own. */
  function WithChecksums(cs: seq<Chunk>, crcs: seq<seq<Byte>>): seq<Byte>
    requires |crcs| == |cs| && forall c :: c in cs ==> Writable(c)
  {
    if cs == [] then []
    else
      assert Writable(cs[0]);
      WithChecksum(cs[0], crcs[0]) + WithChecksums(cs[1..], crcs[1..])
  }

  /** The chunk at the front is found whatever its checksum says. */
  lemma ChunkReadsBack(c: Chunk, crc: seq<Byte>, rest: seq<Byte>)
    requires Writable(c) && |crc| == 4
    ensures var bytes := WithChecksum(c, crc) + rest;
            |bytes| >= 12 && Next(bytes) == Ok(c) && 12 + |c.data| <= |bytes| && bytes[12 + |c.data|..] == rest
  {
    var bytes := WithChecksum(c, crc) + rest;
    var tail := c.name + c.data + crc + rest;
    assert bytes == Be32(|c.data|) + tail;
    ReadWhatWasWritten(|c.data|, tail);
    assert bytes[4..8] == c.name;
    assert bytes[8..8 + |c.data|] == c.data;
  }

  lemma WriteReadsBack(c: Chunk, rest: seq<Byte>)
    requires Writable(c)
    ensures var bytes := Write(c) + rest;
            |bytes| >= 12 && Next(bytes) == Ok(c) && 12 + |c.data| <= |bytes| && bytes[12 + |c.data|..] == rest
  {
    CrcFitsInFourBytes(c.name + c.data);
    ChunkReadsBack(c, Be32(Crc32Of(c.name + c.data)), rest);
  }

  lemma AcceptCounts(r: Reader, c: Chunk)
    ensures Accept(r, c).Ok? ==> Accept(r, c).value.chunks == r.chunks
  {
  }

  /** What a fold over the chunks, and then the end, gives. */
  function Ended(folded: Result<Reader, PngError>): Result<(Reader, bool), PngError> {
    match folded
    case Err(e) => Err(e)
    case Ok(last) => Ok((last.(chunks := last.chunks + 1), true))
  }

  /** One turn of the loop never looks at the checksum. */
  lemma LoopStep(c: Chunk, crc: seq<Byte>, more: seq<Byte>, r: Reader)
    requires Writable(c) && |crc| == 4 && r.chunks < MAX_CHUNKS
    ensures ReadChunks(WithChecksum(c, crc) + more, r) == ReadOn(r.(chunks := r.chunks + 1), c, more)
  {
    hide WithChecksum, Next, ReadOn, Accept;
    ChunkReadsBack(c, crc, more);
  }

  predicate Checksums(crcs: seq<seq<Byte>>) {
    forall i :: 0 <= i < |crcs| ==> |crcs[i]| == 4
  }

  /**
   The chunk loop recovers any list of at most 128 chunks that ends in its only
   IEND, in order and with their data, whatever checksums they carry and
   whatever follows them.
   */
  lemma {:induction false} LoopIgnoresChecksums(cs: seq<Chunk>, crcs: seq<seq<Byte>>, end: Chunk, crc: seq<Byte>,
                                                rest: seq<Byte>, r: Reader)
    requires |crcs| == |cs| && Checksums(crcs) && |crc| == 4
    requires forall c :: c in cs ==> Writable(c) && c.name != IEND
    requires Writable(end) && end.name == IEND && r.chunks + |cs| + 1 <= MAX_CHUNKS
    ensures ReadChunks(WithChecksums(cs, crcs) + (WithChecksum(end, crc) + rest), r) == Ended(Fold(cs, r))
    decreases |cs|
  {
    hide Accept, WithChecksum, ReadChunks;
    if cs == [] {
      assert WithChecksums(cs, crcs) + (WithChecksum(end, crc) + rest) == WithChecksum(end, crc) + rest;
      LoopStep(end, crc, rest, r);
    } else {
      var more := WithChecksums(cs[1..], crcs[1..]) + (WithChecksum(end, crc) + rest);
      assert WithChecksums(cs, crcs) + (WithChecksum(end, crc) + rest) == WithChecksum(cs[0], crcs[0]) + more;
      LoopStep(cs[0], crcs[0], more, r);
      var accepted := Accept(r.(chunks := r.chunks + 1), cs[0]);
      AcceptCounts(r.(chunks := r.chunks + 1), cs[0]);
      if accepted.Ok? {
        LoopIgnoresChecksums(cs[1..], crcs[1..], end, crc, rest, accepted.value);
      }
    }
  }

  /** The checksums the writer gives. */
  function Written(cs: seq<Chunk>): (crcs: seq<seq<Byte>>)
    ensures |crcs| == |cs| && Checksums(crcs)
  {
    if cs == [] then []
    else
      CrcFitsInFourBytes(cs[0].name + cs[0].data);
      [Be32(Crc32Of(cs[0].name + cs[0].data))] + Written(cs[1..])
  }

  lemma {:induction false} WriteAllIsWithChecksums(cs: seq<Chunk>)
    requires forall c :: c in cs ==> Writable(c)
    ensures WriteAll(cs) == WithChecksums(cs, Written(cs))
  {
    hide Crc32Of, Be32;
    if cs != [] {
      WriteAllIsWithChecksums(cs[1..]);
      assert Written(cs)[1..] == Written(cs[1..]);
      assert Writable(cs[0]);
    }
  }

  /** In particular the loop recovers the chunks the writer wrote. */
  lemma LoopRecoversChunks(cs: seq<Chunk>, end: Chunk, rest: seq<Byte>, r: Reader)
    requires forall c :: c in cs ==> Writable(c) && c.name != IEND
    requires Writable(end) && end.name == IEND && r.chunks + |cs| + 1 <= MAX_CHUNKS
    ensures ReadChunks(WriteAll(cs) + (Write(end) + rest), r) == Ended(Fold(cs, r))
  {
    hide Crc32Of, Be32, ReadChunks, Fold, WriteAll, WithChecksums, Written;
    CrcFitsInFourBytes(end.name + end.data);
    WriteAllIsWithChecksums(cs);
    LoopIgnoresChecksums(cs, Written(cs), end, Be32(Crc32Of(end.name + end.data)), rest, r);
  }

  /** What follows the signature: chunks with their checksums, the end with its own, and trailing bytes. */
  function ChunkBytes(cs: seq<Chunk>, crcs: seq<seq<Byte>>, end: Chunk, crc: seq<Byte>, rest: seq<Byte>): (b: seq<Byte>)
    requires |crcs| == |cs| && Writable(end) && forall c :: c in cs ==> Writable(c)
    ensures |b| >= 8
  {
    WithChecksums(cs, crcs) + (WithChecksum(end, crc) + rest)
  }

  /** However many chunks there are, checksums and trailing bytes make no difference to the loop. */
  lemma {:induction false} LoopDependsOnChunks(cs: seq<Chunk>, end: Chunk, r: Reader,
                                               crcs: seq<seq<Byte>>, crc: seq<Byte>, rest: seq<Byte>,
                                               crcs': seq<seq<Byte>>, crc': seq<Byte>, rest': seq<Byte>)
    requires |crcs| == |cs| == |crcs'| && Checksums(crcs) && Checksums(crcs') && |crc| == 4 == |crc'|
    requires forall c :: c in cs ==> Writable(c) && c.name != IEND
    requires Writable(end) && end.name == IEND
    ensures ReadChunks(ChunkBytes(cs, crcs, end, crc, rest), r)
        == ReadChunks(ChunkBytes(cs, crcs', end, crc', rest'), r)
    decreases |cs|
  {
    hide Accept, WithChecksum, ReadChunks;
    var bytes, bytes' := ChunkBytes(cs, crcs, end, crc, rest), ChunkBytes(cs, crcs', end, crc', rest');
    var c, more, more' := end, rest, rest';
    if cs == [] {
      assert bytes == WithChecksum(end, crc) + rest && bytes' == WithChecksum(end, crc') + rest';
    } else {
      c, more, more' := cs[0], ChunkBytes(cs[1..], crcs[1..], end, crc, rest),
          ChunkBytes(cs[1..], crcs'[1..], end, crc', rest');
      assert bytes == WithChecksum(c, crcs[0]) + more && bytes' == WithChecksum(c, crcs'[0]) + more';
    }
    var own, own' := if cs == [] then crc else crcs[0], if cs == [] then crc' else crcs'[0];
    if r.chunks >= MAX_CHUNKS {
      TooMany(c, own, more, r);
      TooMany(c, own', more', r);
    } else {
      LoopStep(c, own, more, r);
      LoopStep(c, own', more', r);
      var accepted := Accept(r.(chunks := r.chunks + 1), c);
      if cs != [] && accepted.Ok? {
        LoopDependsOnChunks(cs[1..], end, accepted.value, crcs[1..], crc, rest, crcs'[1..], crc', rest');
      }
    }
  }

  lemma TooMany(c: Chunk, crc: seq<Byte>, more: seq<Byte>, r: Reader)
    requires Writable(c) && |crc| == 4 && r.chunks >= MAX_CHUNKS
    ensures ReadChunks(WithChecksum(c, crc) + more, r) == Err(TooManyChunks)
  {
    ChunkReadsBack(c, crc, more);
  }

  /**
   Two files of the same chunks decode alike, whatever their checksums and what follows their ends, within the size
   limit.
   */
  lemma DecodingIgnoresChecksums(cs: seq<Chunk>, end: Chunk, z: Zlib,
                                 crcs: seq<seq<Byte>>, crc: seq<Byte>, rest: seq<Byte>,
                                 crcs': seq<seq<Byte>>, crc': seq<Byte>, rest': seq<Byte>)
    requires |crcs| == |cs| == |crcs'| && Checksums(crcs) && Checksums(crcs') && |crc| == 4 == |crc'|
    requires forall c :: c in cs ==> Writable(c) && c.name != IEND
    requires Writable(end) && end.name == IEND
    ensures var file := SIGNATURE + ChunkBytes(cs, crcs, end, crc, rest);
            var file' := SIGNATURE + ChunkBytes(cs, crcs', end, crc', rest');
            |file| <= COMPRESSED_BYTES && |file'| <= COMPRESSED_BYTES ==> Decoded(file, z) == Decoded(file', z)
  {
    hide ReadChunks, Assemble, ChunkBytes;
    var bytes, bytes' := ChunkBytes(cs, crcs, end, crc, rest), ChunkBytes(cs, crcs', end, crc', rest');
    LoopDependsOnChunks(cs, end, NEW_READER, crcs, crc, rest, crcs', crc', rest');
    assert (SIGNATURE + bytes)[..8] == SIGNATURE && (SIGNATURE + bytes)[8..] == bytes;
    assert (SIGNATURE + bytes')[..8] == SIGNATURE && (SIGNATURE + bytes')[8..] == bytes';
  }

  // ----- the round trip

  lemma {:induction false} RgbaPixelsAreTheScan(scan: seq<Byte>, count: nat)
    requires count * 4 <= |scan|
    ensures Pixels(scan, count, 6, None, None) == Ok(scan[..4 * count])
  {
    if count > 0 {
      RgbaPixelsAreTheScan(scan, count - 1);
      assert scan[..4 * count] == scan[..4 * (count - 1)] + Pixel(scan, count - 1, 6, None, None).value;
    }
  }

  /** The limits an image must keep to be read again. */
  predicate Readable(image: Image, z: Zlib)
    requires Encodable(image, z)
  {
    && |Encoded(image, z)| <= 2 * 1024 * 1024
    && 1 <= image.width <= 4096 && 1 <= image.height <= 4096
    && |image.pixels| <= 16 * 1024 * 1024
  }

  lemma HeaderReadsBack(width: nat, height: nat)
    requires width < WORD && height < WORD
    ensures var h := Header(width, height);
            |h| == 13 && ReadU32(h) == width && ReadU32(h[4..]) == height && h[8] == 8 && h[9] == 6 && h[12] == 0
  {
    var tail: seq<Byte> := [8, 6, 0, 0, 0];
    var h := Header(width, height);
    ReadWhatWasWritten(width, Be32(height) + tail);
    assert h == Be32(width) + (Be32(height) + tail);
    ReadWhatWasWritten(height, tail);
    assert h[4..] == Be32(height) + tail;
  }

  lemma AreaFits(width: nat, height: nat)
    requires height > 0
    ensures width <= RGBA_BYTES / 4 / height <==> width * 4 * height <= RGBA_BYTES
  {
    var q := RGBA_BYTES / 4;
    assert q == height * (q / height) + q % height;
    assert width * 4 * height == 4 * (width * height);
    if width <= q / height {
      MulMonotone(width, q / height, height);
    } else {
      MulMonotone(q / height + 1, width, height);
    }
  }

  /** The reader's state after the header and the data of an encoded image. */
  lemma FoldOfImage(image: Image, z: Zlib)
    requires Encodable(image, z) && image.height > 0
    ensures var data := z.deflate(Scanlines(image));
            Fold([Chunk(IHDR, Header(image.width, image.height)), Chunk(IDAT, data)], NEW_READER)
            == if !DimensionsFit(image.width, image.height) then Err(BadDimensions)
               else if |data| > COMPRESSED_BYTES then Err(TooLarge)
               else Ok(Reader(image.width, image.height, 6, 4, None, None, [data], 2, |data|, true))
  {
    HeaderReadsBack(image.width, image.height);
    var data := z.deflate(Scanlines(image));
    var header, idat := Chunk(IHDR, Header(image.width, image.height)), Chunk(IDAT, data);
    var first := Reader(image.width, image.height, 6, 4, None, None, [], 1, 0, true);
    assert [header, idat][1..] == [idat] && [idat][1..] == [];
    assert [] + [data] == [data];
    if DimensionsFit(image.width, image.height) {
      assert Accept(NEW_READER.(chunks := 1), header) == Ok(first);
      assert Fold([idat], first)
          == match Accept(first.(chunks := 2), idat) case Err(e) => Err(e) case Ok(next) => Fold([], next);
    } else {
      assert Accept(NEW_READER.(chunks := 1), header) == Err(BadDimensions);
    }
  }

  lemma EncodedShape(image: Image, z: Zlib)
    requires Encodable(image, z)
    ensures var front := [Chunk(IHDR, Header(image.width, image.height)), Chunk(IDAT, z.deflate(Scanlines(image)))];
            && (forall c :: c in front ==> Writable(c) && c.name != IEND)
            && Encoded(image, z)[8..] == WriteAll(front) + (Write(Chunk(IEND, [])) + [])
            && Encoded(image, z)[..8] == SIGNATURE
            && |Encoded(image, z)| > |z.deflate(Scanlines(image))|
  {
    hide Crc32Of, Filtered, Be32, Header;
    var front := [Chunk(IHDR, Header(image.width, image.height)), Chunk(IDAT, z.deflate(Scanlines(image)))];
    HeaderReadsBack(image.width, image.height);
    var all := ImageChunks(image, z);
    assert all[1..] == [front[1], all[2]] && all[1..][1..] == [all[2]] && [all[2]][1..] == [];
    assert front[1..] == [front[1]] && [front[1]][1..] == [];
    var a, b, c := Write(front[0]), Write(front[1]), Write(all[2]);
    assert WriteAll([all[2]]) == c + [];
    assert WriteAll(all[1..]) == b + (c + []);
    assert WriteAll(all) == a + (b + (c + []));
    assert WriteAll([front[1]]) == b + [];
    assert WriteAll(front) == a + (b + []);
    assert a + (b + (c + [])) == (a + (b + [])) + (c + []);
  }

  /** The state the image's own chunks lead to is assembled into the image. */
  lemma ImageAssembles(image: Image, z: Zlib)
    requires Encodable(image, z) && DimensionsFit(image.width, image.height)
    requires z.inflate(z.deflate(Scanlines(image)), |Scanlines(image)|) == Some(Scanlines(image))
    ensures var data := z.deflate(Scanlines(image));
            Assemble(Reader(image.width, image.height, 6, 4, None, None, [data], 3, |data|, true), true, z) == Ok(image)
  {
    var data, w, h := z.deflate(Scanlines(image)), image.width, image.height;
    AreaFits(w, h);
    assert (w * 4 + 1) * h == w * 4 * h + h;
    assert Concat([data]) == data + Concat([data][1..]) == data;
    ImageExpands(image, Reader(w, h, 6, 4, None, None, [data], 3, |data|, true));
  }

  lemma ImageExpands(image: Image, r: Reader)
    requires Rgba(image) && HeaderKnown(r) && r.sawHeader && r.width == image.width && r.height == image.height
    requires r.colorType == 6 && r.palette.None? && r.transparency.None?
    ensures Expand(r, Scanlines(image)) == Ok(image)
  {
    UnfilterInvertsFiltering(image.pixels, seq(image.height, _ => 0), image.width, 4);
    PixelsFill(image.width, image.height, 4);
    RgbaPixelsAreTheScan(image.pixels, image.width * image.height);
    assert image.pixels[..|image.pixels|] == image.pixels;
  }

  /**
   An encoded image is read back exactly when it keeps the reader's limits; then
   width, height and every pixel are the original's.
   */
  lemma RoundTrip(image: Image, z: Zlib)
    requires Encodable(image, z)
    requires z.inflate(z.deflate(Scanlines(image)), |Scanlines(image)|) == Some(Scanlines(image))
    ensures Decoded(Encoded(image, z), z) == Ok(image) <==> Readable(image, z)
    ensures Decoded(Encoded(image, z), z).Ok? ==> Readable(image, z)
  {
    EncodedShape(image, z);
    if |Encoded(image, z)| <= COMPRESSED_BYTES {
      var front := [Chunk(IHDR, Header(image.width, image.height)), Chunk(IDAT, z.deflate(Scanlines(image)))];
      LoopRecoversChunks(front, Chunk(IEND, []), [], NEW_READER);
      if image.height == 0 {
        HeaderReadsBack(image.width, 0);
      } else {
        FoldOfImage(image, z);
        AreaFits(image.width, image.height);
        if DimensionsFit(image.width, image.height) {
          ImageAssembles(image, z);
        }
      }
    }
  }

  // ----- the code

  /** `chunk`: a buffer filled in place. */
  method WriteChunk(table: array<nat>, c: Chunk) returns (output: array<Byte>)
    requires IsTable(table[..]) && Writable(c)
    ensures fresh(output) && output[..] == Write(c)
  {
    hide Be32, Crc32Of, IsTable;
    var n := |c.data|;
    output := new Byte[12 + n];
    CopyInto(Be32(n), output, 0);
    CopyInto(c.name, output, 4);
    CopyInto(c.data, output, 8);
    assert output[..8 + n] == Be32(n) + c.name + c.data;
    assert output[4..8 + n] == (Be32(n) + c.name + c.data)[4..] == c.name + c.data;
    var crc := Crc32(table, output[4..8 + n]);
    CrcFitsInFourBytes(c.name + c.data);
    CopyInto(Be32(crc), output, 8 + n);
    assert output[..] == output[..12 + n];
  }

  /** `copy`: the part from `at` on, and nothing in front of it changes. */
  method CopyInto(part: seq<Byte>, output: array<Byte>, at: nat)
    requires at + |part| <= output.Length
    modifies output
    ensures output[..at + |part|] == old(output[..at]) + part
  {
    forall i | 0 <= i < |part| { output[at + i] := part[i]; }
    assert output[..at + |part|] == output[..at] + output[at..at + |part|];
  }

  lemma ScanlinesLength(image: Image)
    requires Rgba(image)
    ensures |Scanlines(image)| == (image.width * 4 + 1) * image.height
  {
  }

  /** Where a row starts, among the pixels and among the scanlines. */
  predicate AtRow(image: Image, row: nat, from: nat, to: nat) {
    from == image.width * 4 * row && to == row * (image.width * 4 + 1)
  }

  lemma NextRow(image: Image, row: nat, from: nat, to: nat)
    requires Rgba(image) && row < image.height && AtRow(image, row, from, to)
    ensures var stride := image.width * 4;
            && from + stride <= |image.pixels| && to + stride < |Scanlines(image)|
            && AtRow(image, row + 1, from + stride, to + stride + 1)
  {
    RowStart(row, image.width * 4, image.height);
    MulMonotone(row + 1, image.height, image.width * 4);
  }

  lemma FirstAndLastRow(image: Image)
    requires Rgba(image)
    ensures AtRow(image, 0, 0, 0)
    ensures forall from, to :: AtRow(image, image.height, from, to) ==> to == |Scanlines(image)|
  {
  }

  /** The row loop of `encode`. */
  method FillScanlines(image: Image) returns (scanlines: array<Byte>)
    requires Rgba(image)
    ensures fresh(scanlines) && scanlines[..] == Scanlines(image)
  {
    hide Rgba, Scanlines, AtRow;
    var stride := image.width * 4;
    ghost var want := Scanlines(image);
    ScanlinesLength(image);
    FirstAndLastRow(image);
    scanlines := new Byte[(stride + 1) * image.height](_ => 0);
    var from: nat, to: nat := 0, 0;
    for row := 0 to image.height
      invariant AtRow(image, row, from, to) && to <= scanlines.Length == |want|
      invariant scanlines[..to] == want[..to]
      invariant forall i :: to <= i < scanlines.Length ==> scanlines[i] == 0
    {
      NextRow(image, row, from, to);
      CopyRow(image, row, from, to, scanlines, want);
      from, to := from + stride, to + stride + 1;
    }
    assert scanlines[..] == scanlines[..to] && want == want[..to];
  }

  method CopyRow(image: Image, row: nat, from: nat, to: nat, scanlines: array<Byte>, ghost want: seq<Byte>)
    requires Rgba(image) && row < image.height && want == Scanlines(image) && scanlines.Length == |want|
    requires AtRow(image, row, from, to)
    requires from + image.width * 4 <= |image.pixels| && to + image.width * 4 < scanlines.Length && scanlines[to] == 0
    modifies scanlines
    requires scanlines[..to] == want[..to]
    ensures scanlines[..to + image.width * 4 + 1] == want[..to + image.width * 4 + 1]
    ensures forall i :: to + image.width * 4 < i < scanlines.Length ==> scanlines[i] == old(scanlines[i])
  {
    hide Rgba, Scanlines, AtRow;
    var stride := image.width * 4;
    forall i | 0 <= i < stride { scanlines[to + 1 + i] := image.pixels[from + i]; }
    forall i | to <= i <= to + stride ensures scanlines[i] == want[i] {
      ScanlineByte(image, row, from, to, i - to);
    }
    assert forall i :: 0 <= i < to ==> scanlines[i] == scanlines[..to][i] == want[..to][i];
  }

  /** A byte of the scanlines of an image: a zero, or the pixel byte of its row and column. */
  lemma ScanlineByte(image: Image, row: nat, from: nat, to: nat, column: nat)
    requires Rgba(image) && row < image.height && column <= image.width * 4 && AtRow(image, row, from, to)
    ensures to + column < |Scanlines(image)| && (column > 0 ==> from + column - 1 < |image.pixels|)
    ensures Scanlines(image)[to + column] == if column == 0 then 0 else image.pixels[from + column - 1]
  {
    var stride := image.width * 4;
    RowStart(row, stride, image.height);
    DivModUnique(row * (stride + 1) + column, stride + 1, row, column);
    MulMonotone(row + 1, image.height, stride);
  }

  /** `encode`. */
  method EncodePng(image: Image, z: Zlib) returns (bytes: seq<Byte>)
    requires Encodable(image, z)
    ensures bytes == Encoded(image, z)
  {
    hide Write, Header, Scanlines, IsTable;
    HeaderReadsBack(image.width, image.height);
    var table := CrcTable();
    var scanlines := FillScanlines(image);
    var header := WriteChunk(table, Chunk(IHDR, Header(image.width, image.height)));
    var data := WriteChunk(table, Chunk(IDAT, z.deflate(scanlines[..])));
    var end := WriteChunk(table, Chunk(IEND, []));
    bytes := SIGNATURE + header[..] + data[..] + end[..];
    ghost var all := ImageChunks(image, z);
    assert all[1..][1..] == [all[2]] && [all[2]][1..] == [];
    assert WriteAll([all[2]]) == Write(all[2]) + [];
    assert WriteAll(all[1..]) == Write(all[1]) + WriteAll([all[2]]);
    assert WriteAll(all) == Write(all[0]) + WriteAll(all[1..]);
  }

  /** `rgba`: pixels set in place. */
  method FillPixels(scan: seq<Byte>, count: nat, r: Reader) returns (result: Result<seq<Byte>, PngError>)
    requires count * ChannelsOf(r.colorType) <= |scan|
    ensures result == Pixels(scan, count, r.colorType, r.palette, r.transparency)
  {
    hide Pixel, Pixels;
    NoPixels(scan, r);
    var output := new Byte[4 * count];
    for p := 0 to count
      invariant p * ChannelsOf(r.colorType) <= |scan|
      invariant Pixels(scan, p, r.colorType, r.palette, r.transparency) == Ok(output[..4 * p])
    {
      MulMonotone(p + 1, count, ChannelsOf(r.colorType));
      var four := Pixel(scan, p, r.colorType, r.palette, r.transparency);
      OneMorePixel(scan, p, r);
      if four.Err? {
        PixelsStop(scan, p + 1, count, r);
        return Err(four.error);
      }
      ghost var before := output[..4 * p];
      forall i | 0 <= i < 4 { output[4 * p + i] := four.value[i]; }
      assert output[..4 * (p + 1)] == before + four.value;
    }
    assert output[..] == output[..4 * count];
    return Ok(output[..]);
  }

  lemma NoPixels(scan: seq<Byte>, r: Reader)
    ensures Pixels(scan, 0, r.colorType, r.palette, r.transparency) == Ok([])
  {
  }

  lemma OneMorePixel(scan: seq<Byte>, p: nat, r: Reader)
    requires (p + 1) * ChannelsOf(r.colorType) <= |scan| && p * ChannelsOf(r.colorType) <= |scan|
    requires Pixels(scan, p, r.colorType, r.palette, r.transparency).Ok?
    ensures Pixels(scan, p + 1, r.colorType, r.palette, r.transparency)
         == match Pixel(scan, p, r.colorType, r.palette, r.transparency)
            case Err(e) => Err(e)
            case Ok(four) => Ok(Pixels(scan, p, r.colorType, r.palette, r.transparency).value + four)
  {
    hide Pixel;
  }

  lemma {:induction false} PixelsStop(scan: seq<Byte>, p: nat, count: nat, r: Reader)
    requires p <= count && count * ChannelsOf(r.colorType) <= |scan| && p * ChannelsOf(r.colorType) <= |scan|
    requires Pixels(scan, p, r.colorType, r.palette, r.transparency).Err?
    ensures Pixels(scan, count, r.colorType, r.palette, r.transparency)
        == Pixels(scan, p, r.colorType, r.palette, r.transparency)
    decreases count
  {
    if p < count {
      MulMonotone(count - 1, count, ChannelsOf(r.colorType));
      PixelsStop(scan, p, count - 1, r);
    }
  }

  /** The chunk that starts at an offset, and where the next one starts. */
  lemma ChunkAt(bytes: seq<Byte>, offset: nat, length: nat)
    requires offset + 12 <= |bytes| && length == ReadU32(bytes[offset..]) && length <= |bytes| - offset - 12
    ensures Next(bytes[offset..]) == Ok(Chunk(bytes[offset + 4..offset + 8], bytes[offset + 8..offset + 8 + length]))
    ensures bytes[offset..][12 + length..] == bytes[offset + 12 + length..]
  {
    hide ReadU32;
    var rest := bytes[offset..];
    assert rest[4..8] == bytes[offset + 4..offset + 8];
    assert rest[8..8 + length] == bytes[offset + 8..offset + 8 + length];
  }

  /** `decodePngDataUri`, from the decoded bytes on: the chunk loop with its running offset. */
  method DecodePng(bytes: seq<Byte>, z: Zlib) returns (result: Result<Image, PngError>)
    ensures result == Decoded(bytes, z)
  {
    hide Accept, ReadU32, Expand, Expected, ChannelsOf, DimensionsFit, Concat;
    if |bytes| > COMPRESSED_BYTES { return Err(TooLarge); }
    if |bytes| < 8 || bytes[..8] != SIGNATURE { return Err(BadSignature); }
    var offset, r, sawEnd := 8, NEW_READER, false;
    ghost var all := ReadChunks(bytes[8..], NEW_READER);
    while offset + 12 <= |bytes| && !sawEnd
      invariant 8 <= offset <= |bytes| && HeaderKnown(r)
      invariant all == if sawEnd then Ok((r, true)) else ReadChunks(bytes[offset..], r)
      decreases !sawEnd, |bytes| - offset
    {
      ghost var rest := bytes[offset..];
      r := r.(chunks := r.chunks + 1);
      if r.chunks > MAX_CHUNKS { return Err(TooManyChunks); }
      var length := ReadU32(bytes[offset..]);
      var start := offset + 8;
      if length > |bytes| - start - 4 { return Err(ChunkExceeds); }
      var c := Chunk(bytes[offset + 4..start], bytes[start..start + length]);
      ChunkAt(bytes, offset, length);
      assert Next(rest) == Ok(c);
      if c.name == IEND {
        sawEnd := true;
      } else {
        var next := Accept(r, c);
        if next.Err? { return Err(next.error); }
        r := next.value;
        offset := start + length + 4;
      }
    }
    assert all == Ok((r, sawEnd));
    if !r.sawHeader || !sawEnd || r.width == 0 || r.height == 0 || r.compressed == [] { return Err(Incomplete); }
    if Expected(r) > RGBA_BYTES + r.height { return Err(TooLarge); }
    var raw := z.inflate(Concat(r.compressed), Expected(r));
    if raw.None? { return Err(BadCompression); }
    result := ExpandImage(r, raw.value);
  }

  method ExpandImage(r: Reader, raw: seq<Byte>) returns (result: Result<Image, PngError>)
    requires HeaderKnown(r) && r.sawHeader
    ensures result == Expand(r, raw)
  {
    var scan := UnfilterImage(raw, r.width, r.height, r.channels);
    if scan.Err? { return Err(scan.error); }
    PixelsFill(r.width, r.height, r.channels);
    var pixels := FillPixels(scan.value, r.width * r.height, r);
    result := if pixels.Ok? then Ok(Image(r.width, r.height, pixels.value)) else Err(pixels.error);
  }
}
