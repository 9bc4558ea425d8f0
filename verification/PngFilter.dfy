/**
 Scanline filters (PNG specification, sections 9.2 to 9.4): `unfilter` of
 tui/src/png-glyph.ts against the filtering it has to undo.
 */
module PngFilter {
  import opened Wrappers
  import opened Bits
  import opened Arithmetic

  datatype PngError =
    | ScanlineLength | UnsupportedFilter | PaletteIndex | TooLarge | BadSignature | TooManyChunks | ChunkExceeds
    | BadHeader | UnsupportedFormat | BadDimensions | Incomplete | BadCompression

  function Abs(x: int): (distance: nat)
    ensures distance == x || distance == -x
  {
    if x < 0 then -x else x
  }

  /** `paeth`. */
  function Paeth(left: Byte, above: Byte, upperLeft: Byte): Byte {
    var estimate := left + above - upperLeft;
    var (l, a, d) := (Abs(estimate - left), Abs(estimate - above), Abs(estimate - upperLeft));
    if l <= a && l <= d then left else if a <= d then above else upperLeft
  }

  /** The neighbour nearest to left + above - upperLeft; ties go left, above, upper left. */
  lemma PaethIsNearest(left: Byte, above: Byte, upperLeft: Byte)
    ensures var (p, estimate) := (Paeth(left, above, upperLeft), left + above - upperLeft);
            && (p == left || p == above || p == upperLeft)
            && Abs(estimate - p) <= Abs(estimate - left)
            && Abs(estimate - p) <= Abs(estimate - above)
            && Abs(estimate - p) <= Abs(estimate - upperLeft)
            && (Abs(estimate - p) == Abs(estimate - left) ==> p == left)
            && (Abs(estimate - p) == Abs(estimate - above) ==> p == left || p == above)
  {
  }

  function Predictor(filter: nat, left: Byte, above: Byte, upperLeft: Byte): Byte {
    match filter
    case 1 => left
    case 2 => above
    case 3 => (left + above) / 2
    case 4 => Paeth(left, above, upperLeft)
    case _ => 0
  }

  /** Byte arithmetic wraps around: `(a + b) & 255`. */
  function Add(a: Byte, b: Byte): Byte {
    (a + b) % 256
  }

  function Sub(a: Byte, b: Byte): Byte {
    (a - b) % 256
  }

  /** What byte `k` of an image is predicted to be from the bytes before it. */
  function Predict(filter: nat, image: seq<Byte>, k: nat, stride: nat, channels: nat): Byte
    requires 0 < channels <= stride && k <= |image|
  {
    var column := k % stride;
    ColumnWithin(k, stride);
    var left := if column >= channels then image[k - channels] else 0;
    var above := if k >= stride then image[k - stride] else 0;
    var upperLeft := if k >= stride && column >= channels then image[k - stride - channels] else 0;
    Predictor(filter, left, above, upperLeft)
  }

  lemma ColumnWithin(k: nat, stride: nat)
    requires stride > 0
    ensures k % stride <= k
    ensures k >= stride ==> k % stride <= k - stride
  {
    assert k == stride * (k / stride) + k % stride;
  }

  /** Where byte `k` of the image, and the filter of its row, stand among the scanlines. */
  function RawAt(k: nat, stride: nat): nat
    requires stride > 0
  {
    k + k / stride + 1
  }

  function FilterAt(k: nat, stride: nat): nat
    requires stride > 0
  {
    k / stride * (stride + 1)
  }

  lemma RowBound(k: nat, stride: nat, height: nat)
    requires stride > 0 && k < stride * height
    ensures k / stride < height
    ensures FilterAt(k, stride) < RawAt(k, stride) < (stride + 1) * height
  {
    var row := k / stride;
    assert k == stride * row + k % stride;
    if row >= height {
      MulMonotone(height, row, stride);
    }
    MulMonotone(row + 1, height, stride);
    assert row * (stride + 1) == stride * row + row;
    assert (stride + 1) * height == stride * height + height;
  }

  /** The filter type in front of a row. */
  function RowFilter(raw: seq<Byte>, stride: nat, height: nat, row: nat): Byte
    requires |raw| == (stride + 1) * height && row < height
  {
    RowStart(row, stride, height);
    raw[row * (stride + 1)]
  }

  predicate FiltersKnown(raw: seq<Byte>, stride: nat, height: nat)
    requires |raw| == (stride + 1) * height
  {
    forall row :: 0 <= row < height ==> RowFilter(raw, stride, height, row) <= 4
  }

  lemma RowStart(row: nat, stride: nat, height: nat)
    requires row < height
    ensures row * (stride + 1) + stride < (stride + 1) * height
  {
    MulMonotone(row + 1, height, stride + 1);
  }

  /** The first `n` bytes of the image the scanlines stand for. */
  function Unfiltered(raw: seq<Byte>, stride: nat, height: nat, channels: nat, n: nat): (image: seq<Byte>)
    requires 0 < channels <= stride && |raw| == (stride + 1) * height && n <= stride * height
    ensures |image| == n
  {
    if n == 0 then []
    else
      var before := Unfiltered(raw, stride, height, channels, n - 1);
      RowBound(n - 1, stride, height);
      before + [Add(raw[RawAt(n - 1, stride)], Predict(raw[FilterAt(n - 1, stride)], before, n - 1, stride, channels))]
  }

  function Unfilter(raw: seq<Byte>, width: nat, height: nat, channels: nat): (image: Result<seq<Byte>, PngError>)
    requires width > 0 && channels > 0
    ensures image.Ok? ==> |image.value| == width * channels * height
  {
    var stride := width * channels;
    assert channels <= stride;
    if |raw| != (stride + 1) * height then Err(ScanlineLength)
    else if !FiltersKnown(raw, stride, height) then Err(UnsupportedFilter)
    else Ok(Unfiltered(raw, stride, height, channels, stride * height))
  }

  // ----- filtering, as an encoder does it

  /** The scanlines of an image, each row with the filter type of its choice. */
  function Filtered(image: seq<Byte>, filters: seq<nat>, stride: nat, channels: nat): (raw: seq<Byte>)
    requires 0 < channels <= stride && |image| == stride * |filters|
    requires forall i :: 0 <= i < |filters| ==> filters[i] <= 4
    ensures |raw| == (stride + 1) * |filters|
  {
    seq((stride + 1) * |filters|,
        i requires 0 <= i < (stride + 1) * |filters| => FilteredByte(image, filters, stride, channels, i))
  }

  function FilteredByte(image: seq<Byte>, filters: seq<nat>, stride: nat, channels: nat, i: nat): Byte
    requires 0 < channels <= stride && |image| == stride * |filters| && i < (stride + 1) * |filters|
    requires forall j :: 0 <= j < |filters| ==> filters[j] <= 4
  {
    var row, column := i / (stride + 1), i % (stride + 1);
    ScanlinePlace(i, stride, |filters|);
    if column == 0 then filters[row]
    else
      var k := stride * row + column - 1;
      Sub(image[k], Predict(filters[row], image, k, stride, channels))
  }

  /** A place among the scanlines is the filter of its row or one of its bytes. */
  lemma ScanlinePlace(i: nat, stride: nat, height: nat)
    requires stride > 0 && i < (stride + 1) * height
    ensures var (row, column) := (i / (stride + 1), i % (stride + 1));
            && row < height && i == row * (stride + 1) + column
            && (column > 0 ==> stride * row + column - 1 < stride * height)
  {
    var row, column := i / (stride + 1), i % (stride + 1);
    assert i == (stride + 1) * row + column;
    if row >= height {
      MulMonotone(height, row, stride + 1);
    }
    MulMonotone(row + 1, height, stride);
  }

  /** Byte `k` and its filter, found again among the scanlines. */
  lemma FilteredAt(image: seq<Byte>, filters: seq<nat>, stride: nat, channels: nat, k: nat)
    requires 0 < channels <= stride && |image| == stride * |filters| && k < |image|
    requires forall j :: 0 <= j < |filters| ==> filters[j] <= 4
    ensures k / stride < |filters|
    ensures var raw := Filtered(image, filters, stride, channels);
            && FilterAt(k, stride) < |raw| && RawAt(k, stride) < |raw|
            && raw[FilterAt(k, stride)] == filters[k / stride]
            && raw[RawAt(k, stride)] == Sub(image[k], Predict(filters[k / stride], image, k, stride, channels))
  {
    RowBound(k, stride, |filters|);
    var row, column := k / stride, k % stride;
    assert k == stride * row + column;
    DivModUnique(FilterAt(k, stride), stride + 1, row, 0);
    assert RawAt(k, stride) == row * (stride + 1) + (column + 1);
    DivModUnique(RawAt(k, stride), stride + 1, row, column + 1);
  }

  lemma PredictFromPrefix(filter: nat, image: seq<Byte>, k: nat, stride: nat, channels: nat)
    requires 0 < channels <= stride && k <= |image|
    ensures Predict(filter, image[..k], k, stride, channels) == Predict(filter, image, k, stride, channels)
  {
    ColumnWithin(k, stride);
  }

  lemma {:induction false} UnfilteredOfFiltered(image: seq<Byte>, filters: seq<nat>, stride: nat, channels: nat, n: nat)
    requires 0 < channels <= stride && |image| == stride * |filters| && n <= |image|
    requires forall j :: 0 <= j < |filters| ==> filters[j] <= 4
    ensures Unfiltered(Filtered(image, filters, stride, channels), stride, |filters|, channels, n) == image[..n]
  {
    hide NextByte, Filtered, Predict;
    if n > 0 {
      UnfilteredOfFiltered(image, filters, stride, channels, n - 1);
      UnfilteredStep(Filtered(image, filters, stride, channels), stride, |filters|, channels, n - 1);
      OneByteBack(image, filters, stride, channels, n - 1);
      assert image[..n] == image[..n - 1] + [image[n - 1]];
    }
  }

  /** What the next byte is computed to be from the bytes before it. */
  function NextByte(raw: seq<Byte>, stride: nat, height: nat, channels: nat, before: seq<Byte>): Byte
    requires 0 < channels <= stride && |raw| == (stride + 1) * height && |before| < stride * height
  {
    var k := |before|;
    RowBound(k, stride, height);
    Add(raw[RawAt(k, stride)], Predict(raw[FilterAt(k, stride)], before, k, stride, channels))
  }

  lemma UnfilteredStep(raw: seq<Byte>, stride: nat, height: nat, channels: nat, k: nat)
    requires 0 < channels <= stride && |raw| == (stride + 1) * height && k < stride * height
    ensures var before := Unfiltered(raw, stride, height, channels, k);
            Unfiltered(raw, stride, height, channels, k + 1)
                == before + [NextByte(raw, stride, height, channels, before)]
  {
  }

  lemma OneByteBack(image: seq<Byte>, filters: seq<nat>, stride: nat, channels: nat, k: nat)
    requires 0 < channels <= stride && |image| == stride * |filters| && k < |image|
    requires forall j :: 0 <= j < |filters| ==> filters[j] <= 4
    ensures NextByte(Filtered(image, filters, stride, channels), stride, |filters|, channels, image[..k]) == image[k]
  {
    hide Predict, Add, Sub, Filtered;
    FilteredAt(image, filters, stride, channels, k);
    PredictFromPrefix(filters[k / stride], image, k, stride, channels);
    AddBack(image[k], Predict(filters[k / stride], image, k, stride, channels));
  }

  lemma AddBack(b: Byte, p: Byte)
    ensures Add(Sub(b, p), p) == b
  {
  }

  /** For every image and every choice of filters, unfiltering gives the image back. */
  lemma UnfilterInvertsFiltering(image: seq<Byte>, filters: seq<nat>, width: nat, channels: nat)
    requires width > 0 && channels > 0 && |image| == width * channels * |filters|
    requires forall j :: 0 <= j < |filters| ==> filters[j] <= 4
    ensures channels <= width * channels
    ensures Unfilter(Filtered(image, filters, width * channels, channels), width, |filters|, channels) == Ok(image)
  {
    MulMonotone(1, width, channels);
    var stride := width * channels;
    FilteredKeepsFilters(image, filters, stride, channels);
    UnfilteredOfFiltered(image, filters, stride, channels, |image|);
    assert image[..|image|] == image;
  }

  lemma FilteredKeepsFilters(image: seq<Byte>, filters: seq<nat>, stride: nat, channels: nat)
    requires 0 < channels <= stride && |image| == stride * |filters|
    requires forall j :: 0 <= j < |filters| ==> filters[j] <= 4
    ensures FiltersOf(Filtered(image, filters, stride, channels), stride, |filters|) == filters
    ensures FiltersKnown(Filtered(image, filters, stride, channels), stride, |filters|)
  {
    var raw := Filtered(image, filters, stride, channels);
    forall row | 0 <= row < |filters| ensures RowFilter(raw, stride, |filters|, row) == filters[row] {
      RowStart(row, stride, |filters|);
      DivModUnique(row * (stride + 1), stride + 1, row, 0);
    }
  }

  /** The filter types of the rows. */
  function FiltersOf(raw: seq<Byte>, stride: nat, height: nat): (filters: seq<nat>)
    requires |raw| == (stride + 1) * height
    ensures |filters| == height
  {
    seq(height, row requires 0 <= row < height => RowFilter(raw, stride, height, row))
  }

  lemma {:induction false} UnfilteredPrefix(raw: seq<Byte>, stride: nat, height: nat, channels: nat, k: nat, n: nat)
    requires 0 < channels <= stride && |raw| == (stride + 1) * height && k <= n <= stride * height
    ensures Unfiltered(raw, stride, height, channels, n)[..k] == Unfiltered(raw, stride, height, channels, k)
  {
    if k < n {
      UnfilteredPrefix(raw, stride, height, channels, k, n - 1);
    }
  }

  /** Accepted scanlines are the filtering of the image they decode to: nothing is lost the other way either. */
  lemma FilteringInvertsUnfilter(raw: seq<Byte>, width: nat, height: nat, channels: nat)
    requires width > 0 && channels > 0 && Unfilter(raw, width, height, channels).Ok?
    ensures var (stride, filters) := (width * channels, FiltersOf(raw, width * channels, height));
            && channels <= stride
            && (forall j :: 0 <= j < |filters| ==> filters[j] <= 4)
            && |Unfilter(raw, width, height, channels).value| == stride * height
            && Filtered(Unfilter(raw, width, height, channels).value, filters, stride, channels) == raw
  {
    hide Filtered, Unfiltered, FilteredByte, FiltersOf;
    MulMonotone(1, width, channels);
    FilteredOfUnfiltered(raw, width * channels, height, channels);
  }

  lemma FilteredOfUnfiltered(raw: seq<Byte>, stride: nat, height: nat, channels: nat)
    requires 0 < channels <= stride && |raw| == (stride + 1) * height && FiltersKnown(raw, stride, height)
    ensures forall j :: 0 <= j < height ==> FiltersOf(raw, stride, height)[j] <= 4
    ensures Filtered(Unfiltered(raw, stride, height, channels, stride * height), FiltersOf(raw, stride, height),
        stride, channels) == raw
  {
    var filters, image := FiltersOf(raw, stride, height), Unfiltered(raw, stride, height, channels, stride * height);
    var again := Filtered(image, filters, stride, channels);
    forall i | 0 <= i < |raw| ensures again[i] == raw[i] {
      FilteredByteBack(raw, stride, height, channels, i);
    }
  }

  lemma FilteredByteBack(raw: seq<Byte>, stride: nat, height: nat, channels: nat, i: nat)
    requires 0 < channels <= stride && |raw| == (stride + 1) * height && FiltersKnown(raw, stride, height) && i < |raw|
    ensures forall j :: 0 <= j < height ==> FiltersOf(raw, stride, height)[j] <= 4
    ensures FilteredByte(Unfiltered(raw, stride, height, channels, stride * height), FiltersOf(raw, stride, height),
        stride, channels, i)
            == raw[i]
  {
    hide Predict, Unfiltered, Sub;
    ScanlinePlace(i, stride, height);
    var row, column := i / (stride + 1), i % (stride + 1);
    if column > 0 {
      UnfilteredByte(raw, stride, height, channels, row, column - 1);
    }
  }

  /** How one byte of the decoded image came about. */
  lemma UnfilteredByte(raw: seq<Byte>, stride: nat, height: nat, channels: nat, row: nat, column: nat)
    requires 0 < channels <= stride && |raw| == (stride + 1) * height && row < height && column < stride
    ensures var (k, image) := (stride * row + column, Unfiltered(raw, stride, height, channels, stride * height));
            && k < |image| && row * (stride + 1) + column + 1 < |raw|
            && raw[row * (stride + 1) + column + 1]
               == Sub(image[k], Predict(raw[row * (stride + 1)], image, k, stride, channels))
  {
    hide Predict, Unfiltered, Sub;
    var k := stride * row + column;
    Places(raw, stride, height, row, column);
    UnfilteredAt(raw, stride, height, channels, k);
  }

  /** The same by its place in the image. */
  lemma UnfilteredAt(raw: seq<Byte>, stride: nat, height: nat, channels: nat, k: nat)
    requires 0 < channels <= stride && |raw| == (stride + 1) * height && k < stride * height
    ensures FilterAt(k, stride) < RawAt(k, stride) < |raw|
    ensures var image := Unfiltered(raw, stride, height, channels, stride * height);
            raw[RawAt(k, stride)] == Sub(image[k], Predict(raw[FilterAt(k, stride)], image, k, stride, channels))
  {
    hide Predict, Add, Sub, Unfiltered, RawAt, FilterAt;
    RowBound(k, stride, height);
    var image := Unfiltered(raw, stride, height, channels, stride * height);
    UnfilteredPrefix(raw, stride, height, channels, k + 1, stride * height);
    UnfilteredPrefix(raw, stride, height, channels, k, stride * height);
    UnfilteredStep(raw, stride, height, channels, k);
    PredictFromPrefix(raw[FilterAt(k, stride)], image, k, stride, channels);
    assert image[k] == image[..k + 1][k];
    SubtractBack(raw[RawAt(k, stride)], Predict(raw[FilterAt(k, stride)], image, k, stride, channels));
  }

  lemma SubtractBack(v: Byte, p: Byte)
    ensures Sub(Add(v, p), p) == v
  {
  }

  // ----- what the decoded bytes are, filter by filter

  /** One of the three neighbours, nearest to left + above - upperLeft; ties go left, above, upper left. */
  predicate IsNearest(p: Byte, left: Byte, above: Byte, upperLeft: Byte) {
    var estimate := left + above - upperLeft;
    var (l, a, d) := (Abs(estimate - left), Abs(estimate - above), Abs(estimate - upperLeft));
    || (p == left && l <= a && l <= d)
    || (p == above && a < l && a <= d)
    || (p == upperLeft && d < l && d < a)
  }

  /** A byte of the image against the byte of the scanlines and the filter of its row. */
  ghost predicate Decodes(filter: Byte, value: Byte, b: Byte, left: Byte, above: Byte, upperLeft: Byte) {
    match filter
    case 0 => b == value
    case 1 => (b - left) % 256 == value
    case 2 => (b - above) % 256 == value
    case 3 => (b - (left + above) / 2) % 256 == value
    case 4 => exists p: Byte :: IsNearest(p, left, above, upperLeft) && (b - p) % 256 == value
    case _ => false
  }

  lemma DecodesByPrediction(filter: Byte, value: Byte, b: Byte, left: Byte, above: Byte, upperLeft: Byte)
    requires filter <= 4
    ensures Decodes(filter, value, b, left, above, upperLeft)
       <==> b == Add(value, Predictor(filter, left, above, upperLeft))
  {
    assert IsNearest(Paeth(left, above, upperLeft), left, above, upperLeft);
    forall p: Byte | IsNearest(p, left, above, upperLeft) ensures p == Paeth(left, above, upperLeft) {
    }
    hide Paeth, IsNearest;
    var p := Predictor(filter, left, above, upperLeft);
    assert Sub(b, p) == value <==> b == Add(value, p) by {
      AddBack(b, p);
      SubtractBack(value, p);
    }
  }

  /** The byte in this row and column; neighbours outside the image count as 0. */
  ghost predicate DecodesAt(raw: seq<Byte>, image: seq<Byte>, stride: nat, height: nat, channels: nat,
                            row: nat, column: nat)
    requires 0 < channels <= stride && |raw| == (stride + 1) * height && |image| == stride * height
    requires row < height && column < stride
  {
    Places(raw, stride, height, row, column);
    var k, start := stride * row + column, row * (stride + 1);
    var left := if column >= channels then image[k - channels] else 0;
    var above := if row > 0 then image[k - stride] else 0;
    var upperLeft := if row > 0 && column >= channels then image[(k - stride) - channels] else 0;
    Decodes(raw[start], raw[start + 1 + column], image[k], left, above, upperLeft)
  }

  lemma DecodesNextByte(raw: seq<Byte>, image: seq<Byte>, stride: nat, height: nat, channels: nat,
                        row: nat, column: nat)
    requires 0 < channels <= stride && |raw| == (stride + 1) * height && |image| == stride * height
    requires row < height && column < stride && RowFilter(raw, stride, height, row) <= 4
    ensures var k := stride * row + column;
            && k < |image|
            && (DecodesAt(raw, image, stride, height, channels, row, column)
                <==> image[k] == NextByte(raw, stride, height, channels, image[..k]))
  {
    hide RawAt, FilterAt, Decodes, Add, Predictor;
    Places(raw, stride, height, row, column);
    RowStart(row, stride, height);
    var k, start := stride * row + column, row * (stride + 1);
    var left := if column >= channels then image[k - channels] else 0;
    var above := if row > 0 then image[k - stride] else 0;
    var upperLeft := if row > 0 && column >= channels then image[(k - stride) - channels] else 0;
    PredictFromPrefix(raw[start], image, k, stride, channels);
    assert Predict(raw[start], image, k, stride, channels) == Predictor(raw[start], left, above, upperLeft);
    DecodesByPrediction(raw[start], raw[start + 1 + column], image[k], left, above, upperLeft);
  }

  /**
   What `unfilter` accepts and what it makes of it: the image is determined, byte
   by byte, by the filters in front of the rows.
   */
  lemma UnfilterIsExact(raw: seq<Byte>, width: nat, height: nat, channels: nat, image: seq<Byte>)
    requires width > 0 && channels > 0
    ensures channels <= width * channels
    ensures var stride := width * channels;
            Unfilter(raw, width, height, channels) == Ok(image)
            <==> && |raw| == (stride + 1) * height && |image| == stride * height
                 && forall row, column :: 0 <= row < height && 0 <= column < stride ==>
                      DecodesAt(raw, image, stride, height, channels, row, column)
  {
    hide DecodesAt, Unfiltered, NextByte, RowFilter;
    MulMonotone(1, width, channels);
    var stride := width * channels;
    if |raw| == (stride + 1) * height && |image| == stride * height {
      if Unfilter(raw, width, height, channels) == Ok(image) {
        forall row, column | 0 <= row < height && 0 <= column < stride
          ensures DecodesAt(raw, image, stride, height, channels, row, column)
        {
          UnfilteredDecodes(raw, stride, height, channels, row, column);
        }
      }
      if forall row, column :: 0 <= row < height && 0 <= column < stride ==>
           DecodesAt(raw, image, stride, height, channels, row, column)
      {
        forall row | 0 <= row < height ensures RowFilter(raw, stride, height, row) <= 4 {
          assert DecodesAt(raw, image, stride, height, channels, row, 0);
          DecodedRow(raw, image, stride, height, channels, row);
        }
        DecodedIsUnfiltered(raw, image, stride, height, channels, |image|);
        assert image[..|image|] == image;
      }
    }
  }

  lemma DecodedRow(raw: seq<Byte>, image: seq<Byte>, stride: nat, height: nat, channels: nat, row: nat)
    requires 0 < channels <= stride && |raw| == (stride + 1) * height && |image| == stride * height && row < height
    requires DecodesAt(raw, image, stride, height, channels, row, 0)
    ensures RowFilter(raw, stride, height, row) <= 4
  {
  }

  lemma UnfilteredDecodes(raw: seq<Byte>, stride: nat, height: nat, channels: nat, row: nat, column: nat)
    requires 0 < channels <= stride && |raw| == (stride + 1) * height && row < height && column < stride
    requires RowFilter(raw, stride, height, row) <= 4
    ensures DecodesAt(raw, Unfiltered(raw, stride, height, channels, stride * height), stride, height, channels,
        row, column)
  {
    hide DecodesAt, Unfiltered, NextByte, RowFilter;
    var image, k := Unfiltered(raw, stride, height, channels, stride * height), stride * row + column;
    DecodesNextByte(raw, image, stride, height, channels, row, column);
    UnfilteredPrefix(raw, stride, height, channels, k + 1, stride * height);
    UnfilteredPrefix(raw, stride, height, channels, k, stride * height);
    UnfilteredStep(raw, stride, height, channels, k);
    assert image[k] == image[..k + 1][k];
  }

  lemma DecodedByte(raw: seq<Byte>, image: seq<Byte>, stride: nat, height: nat, channels: nat, k: nat)
    requires 0 < channels <= stride && |raw| == (stride + 1) * height && |image| == stride * height && k < |image|
    requires FiltersKnown(raw, stride, height)
    requires forall row, column :: 0 <= row < height && 0 <= column < stride ==>
               DecodesAt(raw, image, stride, height, channels, row, column)
    ensures NextByte(raw, stride, height, channels, image[..k]) == image[k]
  {
    hide DecodesAt, NextByte, RowFilter;
    RowBound(k, stride, height);
    var row, column := k / stride, k % stride;
    assert k == stride * row + column;
    DecodesNextByte(raw, image, stride, height, channels, row, column);
  }

  lemma {:induction false} DecodedIsUnfiltered(raw: seq<Byte>, image: seq<Byte>, stride: nat, height: nat,
                                               channels: nat, n: nat)
    requires 0 < channels <= stride && |raw| == (stride + 1) * height && |image| == stride * height && n <= |image|
    requires FiltersKnown(raw, stride, height)
    requires forall row, column :: 0 <= row < height && 0 <= column < stride ==>
               DecodesAt(raw, image, stride, height, channels, row, column)
    ensures Unfiltered(raw, stride, height, channels, n) == image[..n]
  {
    hide DecodesAt, NextByte, RowFilter, FiltersKnown;
    if n > 0 {
      DecodedIsUnfiltered(raw, image, stride, height, channels, n - 1);
      UnfilteredStep(raw, stride, height, channels, n - 1);
      DecodedByte(raw, image, stride, height, channels, n - 1);
      assert image[..n] == image[..n - 1] + [image[n - 1]];
    }
  }

  // ----- the code

  /** The prediction from the bytes already in the output array. */
  method PredictIn(output: array<Byte>, filter: Byte, row: nat, column: nat, k: nat, stride: nat, channels: nat)
    returns (p: Byte)
    requires 0 < channels <= stride && k <= output.Length && k % stride == column
    requires (k >= stride <==> row > 0) && column <= k && (row > 0 ==> column <= k - stride)
    ensures p == Predict(filter, output[..k], k, stride, channels)
  {
    var left := if column >= channels then output[k - channels] else 0;
    var above := if row > 0 then output[k - stride] else 0;
    var upperLeft := if row > 0 && column >= channels then output[k - stride - channels] else 0;
    p := Predictor(filter, left, above, upperLeft);
  }

  /** One row of `unfilter`: the columns of the output array, in place. */
  method UnfilterRow(raw: seq<Byte>, stride: nat, height: nat, channels: nat, row: nat, output: array<Byte>)
    requires 0 < channels <= stride && |raw| == (stride + 1) * height && row < height
    requires output.Length == stride * height && stride * row + stride <= output.Length
    requires output[..stride * row] == Unfiltered(raw, stride, height, channels, stride * row)
    modifies output
    ensures output[..stride * row + stride] == Unfiltered(raw, stride, height, channels, stride * row + stride)
  {
    hide Unfiltered, Predict;
    var filter := RowFilter(raw, stride, height, row);
    var inputOffset, rowOffset := row * (stride + 1) + 1, stride * row;
    for column := 0 to stride
      invariant output[..rowOffset + column] == Unfiltered(raw, stride, height, channels, rowOffset + column)
    {
      var k := rowOffset + column;
      Places(raw, stride, height, row, column);
      var predictor := PredictIn(output, filter, row, column, k, stride, channels);
      ghost var before := output[..k];
      assert Add(raw[inputOffset + column], predictor) == NextByte(raw, stride, height, channels, before);
      output[k] := Add(raw[inputOffset + column], predictor);
      assert output[..k + 1] == before + [output[k]];
      UnfilteredStep(raw, stride, height, channels, k);
    }
  }

  /** Where the byte in a row and column stands, in the image and among the scanlines. */
  lemma Places(raw: seq<Byte>, stride: nat, height: nat, row: nat, column: nat)
    requires |raw| == (stride + 1) * height && row < height && column < stride
    ensures var k := stride * row + column;
            && k < stride * height && k / stride == row && k % stride == column
            && (k >= stride <==> row > 0) && (row > 0 ==> column <= k - stride)
            && RawAt(k, stride) == row * (stride + 1) + 1 + column < |raw|
            && FilterAt(k, stride) == row * (stride + 1) < |raw|
  {
    var k := stride * row + column;
    MulMonotone(row + 1, height, stride);
    if row > 0 { MulMonotone(1, row, stride); }
    RowStart(row, stride, height);
    DivModUnique(k, stride, row, column);
  }

  /** `unfilter`. */
  method UnfilterImage(raw: seq<Byte>, width: nat, height: nat, channels: nat)
    returns (result: Result<seq<Byte>, PngError>)
    requires width > 0 && channels > 0
    ensures result == Unfilter(raw, width, height, channels)
  {
    MulMonotone(1, width, channels);
    if |raw| != (width * channels + 1) * height { return Err(ScanlineLength); }
    result := UnfilterRows(raw, width * channels, height, channels);
  }

  lemma NothingUnfiltered(raw: seq<Byte>, stride: nat, height: nat, channels: nat)
    requires 0 < channels <= stride && |raw| == (stride + 1) * height
    ensures stride * 0 == 0 && Unfiltered(raw, stride, height, channels, 0) == []
  {
  }

  /** The loop over the rows. */
  method UnfilterRows(raw: seq<Byte>, stride: nat, height: nat, channels: nat)
    returns (result: Result<seq<Byte>, PngError>)
    requires 0 < channels <= stride && |raw| == (stride + 1) * height
    ensures result == if !FiltersKnown(raw, stride, height) then Err(UnsupportedFilter)
                      else Ok(Unfiltered(raw, stride, height, channels, stride * height))
  {
    hide Unfiltered, RowFilter, RowBase;
    RowBases(stride, height);
    var output := new Byte[stride * height];
    NothingUnfiltered(raw, stride, height, channels);
    for row := 0 to height
      invariant RowBase(row, stride) <= output.Length
      invariant output[..RowBase(row, stride)] == Unfiltered(raw, stride, height, channels, RowBase(row, stride))
      invariant forall r :: 0 <= r < row ==> RowFilter(raw, stride, height, r) <= 4
    {
      if RowFilter(raw, stride, height, row) > 4 { return Err(UnsupportedFilter); }
      RowEnd(row, stride, height);
      UnfilterRow(raw, stride, height, channels, row, output);
    }
    assert output[..] == output[..RowBase(height, stride)];
    return Ok(output[..]);
  }

  function RowBase(row: nat, stride: nat): nat {
    stride * row
  }

  lemma RowBases(stride: nat, height: nat)
    ensures RowBase(0, stride) == 0 && RowBase(height, stride) == stride * height
  {
  }

  lemma RowEnd(row: nat, stride: nat, height: nat)
    requires row < height
    ensures RowBase(row, stride) == stride * row
    ensures RowBase(row + 1, stride) == stride * row + stride <= stride * height
  {
    MulMonotone(row + 1, height, stride);
  }
}
