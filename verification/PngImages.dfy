/** The whole PNG reader of scripts/run_desktop_guidance_matrix.py: the container,
    the decompressed data, its rows, and the check that something was drawn. */
module PngImages {
  import opened Bytes
  import opened PngFilters
  import opened PngChunks

  datatype Inflated = Inflated(decoded: seq<byte>) | Corrupt

  /** The decompressor is not modelled: any partial function of the image data. */
  type Inflate = seq<byte> -> Inflated

  datatype Image = Image(width: nat, height: nat, channels: nat, rows: seq<seq<byte>>)

  datatype ImageError =
    | InContainer(container: ContainerError) | UnsupportedColor | WrongDimensions | UnsupportedDepth
    | Undecodable | WrongLength | InRows(rows: PngError) | Transparent | BackgroundOnly

  datatype ContentResult = Drawn | Blank(error: ImageError)

  datatype ImageResult = Decoded(image: Image) | Rejected(error: ImageError)

  /** Bytes per pixel of a colour type; zero for one that does not exist. */
  function Channels(colorType: byte): nat {
    match colorType
    case 0 => 1
    case 2 => 3
    case 3 => 1
    case 4 => 2
    case 6 => 4
    case _ => 0
  }

  ghost predicate IsPicture(m: Image) {
    && m.channels >= 1 && |m.rows| == m.height
    && forall y | 0 <= y < m.height :: |m.rows[y]| == m.width * m.channels
  }

  function Zeros(n: nat): seq<byte> {
    seq(n, _ => 0)
  }

  /** The dimensions a caller insists on, if any. */
  datatype Expected = Any | Exactly(width: nat, height: nat)

  predicate Admits(expected: Expected, width: nat, height: nat) {
    expected.Any? || (expected.width == width && expected.height == height)
  }

  /** What a container's header and data hold. */
  function Picture(inflate: Inflate, expected: Expected, h: Header, compressed: seq<byte>): ImageResult {
    var channels := Channels(h.colorType);
    if channels == 0 then Rejected(UnsupportedColor)
    else if !Admits(expected, h.width, h.height) then Rejected(WrongDimensions)
    else if h.bitDepth != 8 then Rejected(UnsupportedDepth)
    else
      match inflate(compressed)
      case Corrupt => Rejected(Undecodable)
      case Inflated(decoded) =>
        if |decoded| != (h.width * channels + 1) * h.height then Rejected(WrongLength)
        else
          match Unfilter(decoded, h.height, Zeros(h.width * channels), channels)
          case Err(e) => Rejected(InRows(e))
          case Ok(rows) => Decoded(Image(h.width, h.height, channels, rows))
  }

  function ReadImage(crc: Crc, inflate: Inflate, expected: Expected, data: seq<byte>): ImageResult {
    match Parse(crc, data)
    case Failed(e) => Rejected(InContainer(e))
    case Parsed(c) =>
      if c.header.Some? then Picture(inflate, expected, c.header.header, c.compressed)
      else Rejected(InContainer(MissingChunks))
  }

  // --- From the encoder's image to the bytes and back ----------------------

  /** A header and image data that hold a picture, filtered row by row as `types` says. */
  ghost predicate Describes(header: HeaderOption, data: seq<byte>, inflate: Inflate, m: Image, types: seq<byte>) {
    && header.Some? && data != []
    && IsPicture(m) && IsImage(m.rows, types, m.width * m.channels)
    && var h := header.header;
       && h.width == m.width && h.height == m.height && Channels(h.colorType) == m.channels
       && h.bitDepth == 8 && h.interlace == 0
       && inflate(data) == Inflated(FilterImage(types, m.rows, Zeros(m.width * m.channels), m.channels))
  }

  ghost predicate Holds(chunks: seq<Chunk>, inflate: Inflate, m: Image, types: seq<byte>) {
    WellFormed(chunks) && Describes(LastHeader(chunks), ImageData(chunks), inflate, m, types)
  }

  lemma {:induction false} FilteredLength(types: seq<byte>, rows: seq<seq<byte>>, previous: seq<byte>, bpp: nat)
    requires bpp >= 1 && IsImage(rows, types, |previous|)
    ensures |FilterImage(types, rows, previous, bpp)| == (|previous| + 1) * |rows|
    decreases |rows|
  {
    if rows != [] {
      hide FilterRow;
      FilteredLength(types[1..], rows[1..], rows[0], bpp);
      assert (|previous| + 1) * |rows| == (|previous| + 1) * (|rows| - 1) + |previous| + 1;
    }
  }

  /** Every picture survives filtering, chunking and reading, however its data is
      split into chunks and whatever other chunks stand between them. */
  lemma {:induction false} HeldPictureIsRead(
      crc: Crc, inflate: Inflate, expected: Expected, chunks: seq<Chunk>, m: Image, types: seq<byte>)
    requires Holds(chunks, inflate, m, types)
    ensures ReadImage(crc, inflate, expected, Signature() + Serialise(crc, chunks)) ==
            if Admits(expected, m.width, m.height) then Decoded(m) else Rejected(WrongDimensions)
  {
    hide Parse, FilterImage, Unfilter, Serialise, LastHeader, ImageData, WellFormed;
    SerialisedContainerIsRead(crc, chunks);
    FilteredLength(types, m.rows, Zeros(m.width * m.channels), m.channels);
    UnfilterUndoesFilter(types, m.rows, Zeros(m.width * m.channels), m.channels);
  }

  /** And whatever is read was held by the data read. */
  lemma {:induction false} ReadPictureIsHeld(crc: Crc, inflate: Inflate, expected: Expected, data: seq<byte>)
      returns (chunks: seq<Chunk>, types: seq<byte>)
    requires ReadImage(crc, inflate, expected, data).Decoded?
    ensures var m := ReadImage(crc, inflate, expected, data).image;
            Holds(chunks, inflate, m, types) && Admits(expected, m.width, m.height)
    ensures data == Signature() + Serialise(crc, chunks)
  {
    hide FilterImage, Unfilter, Serialise, LastHeader, ImageData, ParseFrom, TypesOf;
    chunks := AcceptedIsSerialised(crc, data);
    var h := LastHeader(chunks).header;
    var channels := Channels(h.colorType);
    var decoded := inflate(ImageData(chunks)).decoded;
    var zeros := Zeros(h.width * channels);
    FilterUndoesUnfilter(decoded, h.height, zeros, channels);
    types := TypesOf(decoded, h.height, h.width * channels);
  }

  // --- The rendered-content check ------------------------------------------

  datatype Region = Region(left: nat, top: nat, right: int, bottom: int)

  /** The region clipped to the image; only its origin can lie outside. */
  function Clip(m: Image, left: nat, top: nat, width: nat, height: nat): Region {
    Region(left, top, if m.width < left + width then m.width else left + width,
           if m.height < top + height then m.height else top + height)
  }

  predicate Sampled(r: Region, x: int, y: int) {
    r.left <= x < r.right && r.top <= y < r.bottom && (x - r.left) % 4 == 0 && (y - r.top) % 4 == 0
  }

  predicate WithinImage(m: Image, r: Region) {
    r.right <= m.width && r.bottom <= m.height
  }

  function Min(a: int, b: int): int {
    if a <= b then a else b
  }

  lemma {:induction false} PixelInRow(x: nat, width: nat, channels: nat)
    requires x < width
    ensures 0 <= x * channels && x * channels + channels <= width * channels
  {
    var more: nat := width - x - 1;
    assert width * channels == (x + 1 + more) * channels == x * channels + channels + more * channels;
    assert more * channels >= 0;
  }

  function Sample(m: Image, x: nat, y: nat, channel: nat): byte
    requires IsPicture(m) && x < m.width && y < m.height && channel < m.channels
  {
    PixelInRow(x, m.width, m.channels);
    m.rows[y][x * m.channels + channel]
  }

  predicate IsVisible(m: Image, x: nat, y: nat)
    requires IsPicture(m) && x < m.width && y < m.height
  {
    m.channels >= 4 ==> Sample(m, x, y, 3) > 0
  }

  /** Some of the first three channels differ by the threshold of 12. */
  predicate Contrasts(m: Image, x: nat, y: nat, otherX: nat, otherY: nat)
    requires IsPicture(m) && x < m.width && y < m.height && otherX < m.width && otherY < m.height
  {
    exists c | 0 <= c < Min(3, m.channels) ::
      Abs(Sample(m, x, y, c) - Sample(m, otherX, otherY, c)) >= 12
  }

  /** A sample that stands out from the next one to its right or below it. */
  predicate IsEdge(m: Image, r: Region, x: nat, y: nat)
    requires IsPicture(m) && WithinImage(m, r) && Sampled(r, x, y)
  {
    var nextX, nextY := Min(x + 4, r.right - 1), Min(y + 4, r.bottom - 1);
    || (nextX > x && Contrasts(m, x, y, nextX, y))
    || (nextY > y && Contrasts(m, x, y, x, nextY))
  }

  ghost function Gap(a: int, b: int): int {
    if a < b then b - a else a - b
  }

  /** The regions' samples: every fourth column and row from its corner, inside the image. */
  lemma SamplesAre(m: Image, left: nat, top: nat, width: nat, height: nat, x: nat, y: nat)
    ensures Sampled(Clip(m, left, top, width, height), x, y) <==>
            && left <= x < left + width && x < m.width && (x - left) % 4 == 0
            && top <= y < top + height && y < m.height && (y - top) % 4 == 0
  {}

  /** A colour that differs by 12 or more from the sample to the right makes an edge, and
      so does one that differs so from the sample below; nothing else does. */
  lemma EdgesAre(m: Image, r: Region, x: nat, y: nat)
    requires IsPicture(m) && WithinImage(m, r) && Sampled(r, x, y)
    ensures var right, below := Min(x + 4, r.right - 1), Min(y + 4, r.bottom - 1);
            IsEdge(m, r, x, y) <==>
              exists c: nat | c < 3 && c < m.channels ::
                || (right > x && Gap(Sample(m, x, y, c), Sample(m, right, y, c)) >= 12)
                || (below > y && Gap(Sample(m, x, y, c), Sample(m, x, below, c)) >= 12)
  {
    hide Sample, IsPicture;
    var right, below := Min(x + 4, r.right - 1), Min(y + 4, r.bottom - 1);
    if right > x && Contrasts(m, x, y, right, y) {
      var c: nat :| c < Min(3, m.channels) && Abs(Sample(m, x, y, c) - Sample(m, right, y, c)) >= 12;
      assert Gap(Sample(m, x, y, c), Sample(m, right, y, c)) >= 12;
    }
    if below > y && Contrasts(m, x, y, x, below) {
      var c: nat :| c < Min(3, m.channels) && Abs(Sample(m, x, y, c) - Sample(m, x, below, c)) >= 12;
      assert Gap(Sample(m, x, y, c), Sample(m, x, below, c)) >= 12;
    }
  }

  /** A pixel is seen unless it has an alpha of zero as its fourth channel. */
  lemma SeenIs(m: Image, x: nat, y: nat)
    requires IsPicture(m) && x < m.width && y < m.height
    ensures IsVisible(m, x, y) <==> !(m.channels >= 4 && Sample(m, x, y, 3) == 0)
  {}

  /** Channel by channel, pixel by pixel, row by row. */
  lemma SampleIs(m: Image, x: nat, y: nat, channel: nat)
    requires IsPicture(m) && x < m.width && y < m.height && channel < m.channels
    ensures 0 <= x * m.channels && x * m.channels + channel < |m.rows[y]|
    ensures Sample(m, x, y, channel) == m.rows[y][x * m.channels + channel]
  {
    PixelInRow(x, m.width, m.channels);
  }

  /** Grey, palette, grey with alpha, colour, and colour with alpha; no other type. */
  lemma ChannelsAre(colorType: byte)
    ensures Channels(colorType) ==
            if colorType == 0 || colorType == 3 then 1 else if colorType == 4 then 2
            else if colorType == 2 then 3 else if colorType == 6 then 4 else 0
  {}

  /** Every byte of a decoded picture, from the bytes of the decompressed data: those above
      the first row are zero, and so are those to the left of the first pixel. */
  lemma PictureDecodes(inflate: Inflate, expected: Expected, h: Header, compressed: seq<byte>, y: nat, i: nat)
    requires Picture(inflate, expected, h, compressed).Decoded?
    requires y < h.height && i < h.width * Channels(h.colorType)
    ensures var m, n, bpp := Picture(inflate, expected, h, compressed).image, h.width * Channels(h.colorType),
                             Channels(h.colorType);
            && inflate(compressed).Inflated? && |m.rows| == h.height && |m.rows[y]| == n
            && (y > 0 ==> |m.rows[y - 1]| == n)
            && var decoded, at := inflate(compressed).decoded, y * (n + 1);
               var above := if y > 0 then m.rows[y - 1][i] else 0;
               var left := if i >= bpp then m.rows[y][i - bpp] else 0;
               var upperLeft := if y > 0 && i >= bpp then m.rows[y - 1][i - bpp] else 0;
               && 0 <= at && at + n < |decoded|
               && DecodesTo(decoded[at], decoded[at + 1 + i], left, above, upperLeft, m.rows[y][i])
  {
    var n, bpp := h.width * Channels(h.colorType), Channels(h.colorType);
    hide Unfilter, DecodesTo, Channels;
    ImageDecodes(inflate(compressed).decoded, h.height, Zeros(n), bpp, y, i);
  }

  /** What is wrong with a header or its data is reported, the first thing first. */
  lemma PictureFaults(inflate: Inflate, expected: Expected, h: Header, compressed: seq<byte>)
    ensures var result, channels := Picture(inflate, expected, h, compressed), Channels(h.colorType);
            if channels == 0 then result == Rejected(UnsupportedColor)
            else if expected.Exactly? && (h.width != expected.width || h.height != expected.height)
            then result == Rejected(WrongDimensions)
            else if h.bitDepth != 8 then result == Rejected(UnsupportedDepth)
            else if inflate(compressed).Corrupt? then result == Rejected(Undecodable)
            else if |inflate(compressed).decoded| != h.height * (h.width * channels + 1) then result == Rejected(WrongLength)
            else result.Decoded? || result.error.InRows?
  {
    hide Unfilter, Channels;
  }

  /** Any part of an image, cut to it, is within it; the whole image has every fourth
      column and row of all of it. */
  lemma WindowsAre(m: Image, window: Window, x: nat, y: nat)
    ensures WithinImage(m, RegionOf(m, window))
    ensures Sampled(RegionOf(m, Whole), x, y) <==> x < m.width && x % 4 == 0 && y < m.height && y % 4 == 0
  {}

  /** The samples one can see, and those that stand out. */
  ghost function Visible(m: Image, r: Region): set<(nat, nat)>
    requires IsPicture(m) && WithinImage(m, r)
  {
    set a: nat, b: nat | a < m.width && b < m.height && Sampled(r, a, b) && IsVisible(m, a, b) :: (a, b)
  }

  ghost function Edges(m: Image, r: Region): set<(nat, nat)>
    requires IsPicture(m) && WithinImage(m, r)
  {
    set a: nat, b: nat | a < m.width && b < m.height && Sampled(r, a, b) && IsEdge(m, r, a, b) :: (a, b)
  }

  /** Samples the scan has passed: whole rows above `y`, and row `y` before `x`. */
  predicate Reached(r: Region, x: int, y: int, p: (nat, nat)) {
    Sampled(r, p.0, p.1) && (p.1 < y || (p.1 == y && p.0 < x))
  }

  ghost function Passed(r: Region, all: set<(nat, nat)>, x: int, y: int): set<(nat, nat)> {
    set p | p in all && Reached(r, x, y, p)
  }

  lemma ReachStep(r: Region, x: int, y: int, p: (nat, nat))
    requires Sampled(r, x, y)
    ensures Reached(r, x + 4, y, p) <==> Reached(r, x, y, p) || p == (x, y)
  {
    if Sampled(r, p.0, p.1) && p.1 == y && x <= p.0 < x + 4 {
      assert (p.0 - r.left) % 4 == (x - r.left) % 4;
    }
  }

  lemma ReachRow(r: Region, x: int, y: int, p: (nat, nat))
    requires r.top <= y && (y - r.top) % 4 == 0 && x >= r.right
    ensures Reached(r, x, y, p) <==> Reached(r, r.left, y + 4, p)
  {
  }

  lemma CountStep(r: Region, all: set<(nat, nat)>, x: nat, y: nat)
    requires Sampled(r, x, y)
    ensures |Passed(r, all, x + 4, y)| == |Passed(r, all, x, y)| + if (x, y) in all then 1 else 0
  {
    forall p: (nat, nat) ensures Reached(r, x + 4, y, p) <==> Reached(r, x, y, p) || p == (x, y) {
      ReachStep(r, x, y, p);
    }
    var before := Passed(r, all, x, y);
    assert (x, y) !in before;
    assert Passed(r, all, x + 4, y) == before + if (x, y) in all then {(x, y)} else {};
  }

  lemma CountRow(r: Region, all: set<(nat, nat)>, x: int, y: nat)
    requires r.top <= y && (y - r.top) % 4 == 0 && x >= r.right
    ensures Passed(r, all, x, y) == Passed(r, all, r.left, y + 4)
  {
    forall p: (nat, nat) ensures Reached(r, x, y, p) <==> Reached(r, r.left, y + 4, p) {
      ReachRow(r, x, y, p);
    }
  }

  lemma ScanEnds(m: Image, r: Region, y: int)
    requires IsPicture(m) && WithinImage(m, r)
    ensures |Passed(r, Visible(m, r), r.left, r.top)| == 0 && |Passed(r, Edges(m, r), r.left, r.top)| == 0
    ensures y >= r.bottom ==> Passed(r, Visible(m, r), r.left, y) == Visible(m, r)
    ensures y >= r.bottom ==> Passed(r, Edges(m, r), r.left, y) == Edges(m, r)
  {
    assert Passed(r, Visible(m, r), r.left, r.top) == {} && Passed(r, Edges(m, r), r.left, r.top) == {};
  }

  /** The largest difference over the first three channels of two pixels. */
  method Contrast(m: Image, x: nat, y: nat, otherX: nat, otherY: nat) returns (largest: nat)
    requires IsPicture(m) && x < m.width && y < m.height && otherX < m.width && otherY < m.height
    ensures largest >= 12 <==> Contrasts(m, x, y, otherX, otherY)
  {
    largest := 0;
    for channel := 0 to Min(3, m.channels)
      invariant largest >= 12 <==> exists c | 0 <= c < channel ::
        Abs(Sample(m, x, y, c) - Sample(m, otherX, otherY, c)) >= 12
    {
      PixelInRow(x, m.width, m.channels);
      PixelInRow(otherX, m.width, m.channels);
      var here: int, there: int :=
        m.rows[y][x * m.channels + channel], m.rows[otherY][otherX * m.channels + channel];
      var difference := Abs(here - there);
      assert difference == Abs(Sample(m, x, y, channel) - Sample(m, otherX, otherY, channel));
      if difference > largest {
        largest := difference;
      }
    }
  }

  function Larger(a: int, b: int): int {
    if a >= b then a else b
  }

  /** The check, as the source scans: nothing is read out of bounds, whatever the
      region, and the two counts are those of the visible samples and the edges. */
  method ValidateRenderedContent(m: Image, left: nat, top: nat, regionWidth: nat, regionHeight: nat)
    returns (error: ContentResult)
    requires IsPicture(m)
    ensures var r := Clip(m, left, top, regionWidth, regionHeight);
            error ==
            if Visible(m, r) == {} then Blank(Transparent)
            else if |Edges(m, r)| < Larger(8, (r.right - r.left) * (r.bottom - r.top) / 320_000) then Blank(BackgroundOnly)
            else Drawn
  {
    hide Visible, Edges, Passed, IsPicture;
    var right, bottom := Min(m.width, left + regionWidth), Min(m.height, top + regionHeight);
    var r := Clip(m, left, top, regionWidth, regionHeight);
    var visiblePixels, edgePixels := 0, 0;
    var y := top;
    ScanEnds(m, r, y);
    while y < bottom
      invariant top <= y && (y - top) % 4 == 0
      invariant visiblePixels == |Passed(r, Visible(m, r), left, y)|
      invariant edgePixels == |Passed(r, Edges(m, r), left, y)|
    {
      var visible, edges := ScanRow(m, r, y, visiblePixels, edgePixels);
      visiblePixels, edgePixels := visible, edges;
      y := y + 4;
    }
    ScanEnds(m, r, y);
    if visiblePixels == 0 {
      return Blank(Transparent);
    }
    var minimumEdges := Larger(8, (right - left) * (bottom - top) / (20_000 * 16));
    if edgePixels < minimumEdges {
      return Blank(BackgroundOnly);
    }
    return Drawn;
  }

  /** The inner loop, over one sampled row. */
  method ScanRow(m: Image, r: Region, y: nat, visiblePixels: nat, edgePixels: nat) returns (visible: nat, edges: nat)
    requires IsPicture(m) && WithinImage(m, r) && r.top <= y < r.bottom && (y - r.top) % 4 == 0
    requires visiblePixels == |Passed(r, Visible(m, r), r.left, y)| && edgePixels == |Passed(r, Edges(m, r), r.left, y)|
    ensures visible == |Passed(r, Visible(m, r), r.left, y + 4)| && edges == |Passed(r, Edges(m, r), r.left, y + 4)|
  {
    hide IsVisible, IsEdge, Passed;
    visible, edges := visiblePixels, edgePixels;
    var x := r.left;
    while x < r.right
      invariant r.left <= x && (x - r.left) % 4 == 0
      invariant visible == |Passed(r, Visible(m, r), x, y)| && edges == |Passed(r, Edges(m, r), x, y)|
    {
      CountStep(r, Visible(m, r), x, y);
      CountStep(r, Edges(m, r), x, y);
      var shown, stands := Inspect(m, r, x, y);
      if shown {
        visible := visible + 1;
      }
      if stands {
        edges := edges + 1;
      }
      x := x + 4;
    }
    CountRow(r, Visible(m, r), x, y);
    CountRow(r, Edges(m, r), x, y);
  }

  /** One sample, and the next ones to its right and below it. */
  method Inspect(m: Image, r: Region, x: nat, y: nat) returns (shown: bool, stands: bool)
    requires IsPicture(m) && WithinImage(m, r) && Sampled(r, x, y)
    ensures shown == IsVisible(m, x, y) && stands == IsEdge(m, r, x, y)
  {
    PixelInRow(x, m.width, m.channels);
    var alpha := if m.channels >= 4 then m.rows[y][x * m.channels + 3] else 255;
    shown := alpha > 0;
    var horizontal, vertical := 0, 0;
    var nextX, nextY := Min(x + 4, r.right - 1), Min(y + 4, r.bottom - 1);
    if nextX > x {
      horizontal := Contrast(m, x, y, nextX, y);
    }
    if nextY > y {
      vertical := Contrast(m, x, y, x, nextY);
    }
    stands := Larger(horizontal, vertical) >= 12;
  }

  datatype ReadResult = Accepted(width: nat, height: nat) | Refused(error: ImageError)

  /** A region by its corner and size, or the whole image. */
  datatype Window = Whole | Part(left: nat, top: nat, width: nat, height: nat)

  function RegionOf(m: Image, window: Window): Region {
    match window
    case Whole => Clip(m, 0, 0, m.width, m.height)
    case Part(left, top, width, height) => Clip(m, left, top, width, height)
  }

  /** Samples enough of which stand out, for the size of the region. */
  ghost predicate ShowsContent(m: Image, r: Region)
    requires IsPicture(m) && WithinImage(m, r)
  {
    Visible(m, r) != {} && |Edges(m, r)| >= Larger(8, (r.right - r.left) * (r.bottom - r.top) / 320_000)
  }

  /** The whole reader accepts exactly the data that holds a picture of the right
      size with something drawn in the region, and reports that picture's size. */
  method ReadPng(crc: Crc, inflate: Inflate, data: seq<byte>, window: Window, expected: Expected)
    returns (result: ReadResult)
    ensures match ReadImage(crc, inflate, expected, data)
            case Rejected(e) => result == Refused(e)
            case Decoded(m) =>
              && IsPicture(m)
              && (result == Accepted(m.width, m.height) <==> ShowsContent(m, RegionOf(m, window)))
              && (result.Accepted? || result.error.Transparent? || result.error.BackgroundOnly?)
  {
    hide Parse, Unfilter, Visible, Edges;
    var container := ReadContainer(crc, data);
    if container.Failed? {
      return Refused(InContainer(container.error));
    }
    ParsedHasHeader(crc, data);
    var header := container.container.header.header;
    var channels := Channels(header.colorType);
    if channels == 0 {
      return Refused(UnsupportedColor);
    }
    if expected.Exactly? && (header.width, header.height) != (expected.width, expected.height) {
      return Refused(WrongDimensions);
    }
    if header.bitDepth != 8 {
      return Refused(UnsupportedDepth);
    }
    var rowBytes := header.width * channels;
    var inflated := inflate(container.container.compressed);
    if inflated.Corrupt? {
      return Refused(Undecodable);
    }
    if |inflated.decoded| != (rowBytes + 1) * header.height {
      return Refused(WrongLength);
    }
    var rows := UnfilterRows(inflated.decoded, rowBytes, header.height, channels);
    assert seq(rowBytes, _ => 0) == Zeros(rowBytes);
    if rows.Err? {
      return Refused(InRows(rows.error));
    }
    FilterUndoesUnfilter(inflated.decoded, header.height, Zeros(rowBytes), channels);
    var m := Image(header.width, header.height, channels, rows.value);
    var content;
    match window {
      case Whole => content := ValidateRenderedContent(m, 0, 0, m.width, m.height);
      case Part(left, top, width, height) => content := ValidateRenderedContent(m, left, top, width, height);
    }
    return if content.Blank? then Refused(content.error) else Accepted(m.width, m.height);
  }

  lemma ParsedHasHeader(crc: Crc, data: seq<byte>)
    ensures Parse(crc, data).Parsed? ==> Parse(crc, data).container.header.Some?
  {
    hide ParseFrom;
  }
}
