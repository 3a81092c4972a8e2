/** Scanline filters of scripts/run_desktop_guidance_matrix.py (section 6 of RFC 2083).

    `UnfilterRows` is proved to be the inverse of filtering, for every choice of
    filter type per row, in both directions. */
module PngFilters {
  import opened Bytes

  datatype Result<T> = Ok(value: T) | Err(error: PngError)

  datatype PngError = Truncated | UnsupportedFilter | TrailingBytes

  function Abs(x: int): nat {
    if x < 0 then -x else x
  }

  /** Whichever of left, above and upper left is nearest to left + above - upper
      left; ties go to the left, then to the one above. */
  function Paeth(left: byte, above: byte, upperLeft: byte): (p: byte)
    ensures var estimate := left + above - upperLeft;
            var l, a, u := Abs(estimate - left), Abs(estimate - above), Abs(estimate - upperLeft);
            && (l <= a && l <= u ==> p == left)
            && (l > a && a <= u ==> p == above)
            && (u < l && u < a ==> p == upperLeft)
            && Abs(estimate - p) <= l && Abs(estimate - p) <= a && Abs(estimate - p) <= u
  {
    var estimate := left + above - upperLeft;
    var l, a, u := Abs(estimate - left), Abs(estimate - above), Abs(estimate - upperLeft);
    if l <= a && l <= u then left else if a <= u then above else upperLeft
  }

  /** What a filter type predicts from the three neighbours already known. */
  function Predict(filterType: byte, left: byte, above: byte, upperLeft: byte): byte
    requires filterType <= 4
  {
    match filterType
    case 0 => 0
    case 1 => left
    case 2 => above
    case 3 => (left + above) / 2
    case _ => Paeth(left, above, upperLeft)
  }

  /** The byte one pixel to the left, or zero at the edge. */
  function Before(row: seq<byte>, i: nat, bpp: nat): byte
    requires bpp >= 1 && i <= |row|
  {
    if i >= bpp then row[i - bpp] else 0
  }

  function Prediction(filterType: byte, row: seq<byte>, previous: seq<byte>, bpp: nat, i: nat): byte
    requires bpp >= 1 && i < |previous| && i <= |row| && filterType <= 4
  {
    Predict(filterType, Before(row, i, bpp), previous[i], Before(previous, i, bpp))
  }

  // --- Filtering, the encoder's side --------------------------------------

  function FilterRow(filterType: byte, raw: seq<byte>, previous: seq<byte>, bpp: nat): (encoded: seq<byte>)
    requires bpp >= 1 && |raw| == |previous| && (raw != [] ==> filterType <= 4)
    ensures |encoded| == |raw|
  {
    seq(|raw|, i requires 0 <= i < |raw| => (raw[i] - Prediction(filterType, raw, previous, bpp, i)) % 256)
  }

  ghost predicate IsImage(rows: seq<seq<byte>>, types: seq<byte>, rowBytes: nat) {
    && |types| == |rows|
    && (forall r | 0 <= r < |rows| :: |rows[r]| == rowBytes)
    && (rowBytes > 0 ==> forall r | 0 <= r < |types| :: types[r] <= 4)
  }

  ghost function FilterImage(types: seq<byte>, rows: seq<seq<byte>>, previous: seq<byte>, bpp: nat): seq<byte>
    requires bpp >= 1 && IsImage(rows, types, |previous|)
    decreases |rows|
  {
    if rows == [] then []
    else [types[0]] + FilterRow(types[0], rows[0], previous, bpp) + FilterImage(types[1..], rows[1..], rows[0], bpp)
  }

  // --- Unfiltering --------------------------------------------------------

  /** The first `k` bytes of the reconstructed row. */
  function UnfilterRow(filterType: byte, encoded: seq<byte>, previous: seq<byte>, bpp: nat, k: nat): (row: seq<byte>)
    requires bpp >= 1 && k <= |encoded| == |previous| && (encoded != [] ==> filterType <= 4)
    ensures |row| == k
  {
    if k == 0 then []
    else
      var row := UnfilterRow(filterType, encoded, previous, bpp, k - 1);
      row + [(encoded[k - 1] + Prediction(filterType, row, previous, bpp, k - 1)) % 256]
  }

  function Prepend(row: seq<byte>, rest: Result<seq<seq<byte>>>): Result<seq<seq<byte>>> {
    match rest
    case Err(e) => Err(e)
    case Ok(rows) => Ok([row] + rows)
  }

  function Unfilter(decoded: seq<byte>, height: nat, previous: seq<byte>, bpp: nat): Result<seq<seq<byte>>>
    requires bpp >= 1
    decreases height
  {
    var rowBytes := |previous|;
    if height == 0 then if decoded == [] then Ok([]) else Err(TrailingBytes)
    else if |decoded| < rowBytes + 1 then Err(Truncated)
    else if rowBytes > 0 && decoded[0] > 4 then Err(UnsupportedFilter)
    else
      var row := UnfilterRow(decoded[0], decoded[1..rowBytes + 1], previous, bpp, rowBytes);
      Prepend(row, Unfilter(decoded[rowBytes + 1..], height - 1, row, bpp))
  }

  /** The filter type bytes of an encoded image. */
  function TypesOf(decoded: seq<byte>, height: nat, rowBytes: nat): (types: seq<byte>)
    requires |decoded| >= height * (rowBytes + 1)
    ensures |types| == height
  {
    if height == 0 then []
    else
      assert height * (rowBytes + 1) == (height - 1) * (rowBytes + 1) + (rowBytes + 1);
      [decoded[0]] + TypesOf(decoded[rowBytes + 1..], height - 1, rowBytes)
  }

  // --- The inverse theorems -----------------------------------------------

  lemma PredictionIsLocal(filterType: byte, a: seq<byte>, b: seq<byte>, previous: seq<byte>, bpp: nat, i: nat)
    requires bpp >= 1 && i < |previous| && i <= |a| && i <= |b| && filterType <= 4
    requires a[..i] == b[..i]
    ensures Prediction(filterType, a, previous, bpp, i) == Prediction(filterType, b, previous, bpp, i)
  {
    if i >= bpp {
      assert a[i - bpp] == a[..i][i - bpp] == b[..i][i - bpp] == b[i - bpp];
    }
  }

  lemma ModuloCancels(x: byte, p: byte)
    ensures ((x - p) % 256 + p) % 256 == x && ((x + p) % 256 - p) % 256 == x
  {}

  lemma {:induction false} UnfilterFilterRow(filterType: byte, raw: seq<byte>, previous: seq<byte>, bpp: nat, k: nat)
    requires bpp >= 1 && k <= |raw| == |previous| && (raw != [] ==> filterType <= 4)
    ensures UnfilterRow(filterType, FilterRow(filterType, raw, previous, bpp), previous, bpp, k) == raw[..k]
  {
    if k > 0 {
      hide Prediction;
      UnfilterFilterRow(filterType, raw, previous, bpp, k - 1);
      PredictionIsLocal(filterType, raw[..k - 1], raw, previous, bpp, k - 1);
      ModuloCancels(raw[k - 1], Prediction(filterType, raw, previous, bpp, k - 1));
      assert raw[..k] == raw[..k - 1] + [raw[k - 1]];
    }
  }

  lemma {:induction false} UnfilterRowPrefix(
      filterType: byte, encoded: seq<byte>, previous: seq<byte>, bpp: nat, k: nat, n: nat)
    requires bpp >= 1 && k <= n <= |encoded| == |previous| && (encoded != [] ==> filterType <= 4)
    ensures UnfilterRow(filterType, encoded, previous, bpp, n)[..k] == UnfilterRow(filterType, encoded, previous, bpp, k)
    decreases n
  {
    if k < n {
      UnfilterRowPrefix(filterType, encoded, previous, bpp, k, n - 1);
      var shorter := UnfilterRow(filterType, encoded, previous, bpp, n - 1);
      assert UnfilterRow(filterType, encoded, previous, bpp, n)[..k] == shorter[..k];
    }
  }

  lemma FilterUnfilterRow(filterType: byte, encoded: seq<byte>, previous: seq<byte>, bpp: nat)
    requires bpp >= 1 && |encoded| == |previous| && (encoded != [] ==> filterType <= 4)
    ensures FilterRow(filterType, UnfilterRow(filterType, encoded, previous, bpp, |encoded|), previous, bpp) == encoded
  {
    hide Prediction;
    var row := UnfilterRow(filterType, encoded, previous, bpp, |encoded|);
    forall i | 0 <= i < |encoded| ensures FilterRow(filterType, row, previous, bpp)[i] == encoded[i] {
      UnfilterRowPrefix(filterType, encoded, previous, bpp, i + 1, |encoded|);
      UnfilterRowPrefix(filterType, encoded, previous, bpp, i, |encoded|);
      var before := UnfilterRow(filterType, encoded, previous, bpp, i);
      assert row[i] == row[..i + 1][i];
      PredictionIsLocal(filterType, before, row, previous, bpp, i);
      ModuloCancels(encoded[i], Prediction(filterType, before, previous, bpp, i));
    }
  }

  /** Every image, under every choice of filter types, comes back. */
  lemma {:induction false} UnfilterUndoesFilter(types: seq<byte>, rows: seq<seq<byte>>, previous: seq<byte>, bpp: nat)
    requires bpp >= 1 && IsImage(rows, types, |previous|)
    ensures Unfilter(FilterImage(types, rows, previous, bpp), |rows|, previous, bpp) == Ok(rows)
    decreases |rows|
  {
    if rows != [] {
      var encoded := FilterRow(types[0], rows[0], previous, bpp);
      var rest := FilterImage(types[1..], rows[1..], rows[0], bpp);
      var decoded := FilterImage(types, rows, previous, bpp);
      assert decoded == [types[0]] + encoded + rest;
      assert decoded[1..|previous| + 1] == encoded && decoded[|previous| + 1..] == rest;
      UnfilterFilterRow(types[0], rows[0], previous, bpp, |previous|);
      assert rows[0][..|previous|] == rows[0];
      UnfilterUndoesFilter(types[1..], rows[1..], rows[0], bpp);
      assert rows == [rows[0]] + rows[1..];
    }
  }

  lemma UnfilterAccepts(decoded: seq<byte>, height: nat, previous: seq<byte>, bpp: nat)
    requires bpp >= 1 && height > 0 && Unfilter(decoded, height, previous, bpp).Ok?
    ensures var n := |previous| + 1;
            && |decoded| >= n && (n > 1 ==> decoded[0] <= 4)
            && var row := UnfilterRow(decoded[0], decoded[1..n], previous, bpp, n - 1);
               var rest := Unfilter(decoded[n..], height - 1, row, bpp);
               rest.Ok? && Unfilter(decoded, height, previous, bpp) == Ok([row] + rest.value)
  {
    hide UnfilterRow;
  }

  lemma FilterFirst(
      types: seq<byte>, rows: seq<seq<byte>>, previous: seq<byte>, bpp: nat, filterType: byte, row: seq<byte>)
    requires bpp >= 1 && IsImage(rows, types, |previous|)
    requires |row| == |previous| && (row != [] ==> filterType <= 4)
    ensures IsImage([row] + rows, [filterType] + types, |previous|)
    ensures FilterImage([filterType] + types, [row] + rows, previous, bpp) ==
            [filterType] + FilterRow(filterType, row, previous, bpp) + FilterImage(types, rows, row, bpp)
  {
    hide FilterRow;
    assert ([row] + rows)[1..] == rows && ([filterType] + types)[1..] == types;
  }

  /** The rows of an accepted input, filtered with its own types, give it back. */
  ghost predicate Undone(decoded: seq<byte>, height: nat, previous: seq<byte>, bpp: nat)
    requires bpp >= 1 && Unfilter(decoded, height, previous, bpp).Ok?
  {
    && |decoded| == height * (|previous| + 1)
    && var rows := Unfilter(decoded, height, previous, bpp).value;
       var types := TypesOf(decoded, height, |previous|);
       IsImage(rows, types, |previous|) && FilterImage(types, rows, previous, bpp) == decoded
  }

  lemma {:induction false} UndoneFirst(decoded: seq<byte>, height: nat, previous: seq<byte>, bpp: nat, row: seq<byte>)
    requires bpp >= 1 && height > 0 && Unfilter(decoded, height, previous, bpp).Ok?
    requires |decoded| >= |previous| + 1
    requires row == UnfilterRow(decoded[0], decoded[1..|previous| + 1], previous, bpp, |previous|)
    requires |previous| > 0 ==> decoded[0] <= 4
    requires var rest := Unfilter(decoded[|previous| + 1..], height - 1, row, bpp);
             && rest.Ok? && Unfilter(decoded, height, previous, bpp) == Ok([row] + rest.value)
             && Undone(decoded[|previous| + 1..], height - 1, row, bpp)
    ensures Undone(decoded, height, previous, bpp)
  {
    hide UnfilterRow, FilterRow, Unfilter, FilterImage, TypesOf, IsImage;
    var n := |previous| + 1;
    var tail := decoded[n..];
    LengthUnfold(height, n);
    TypesUnfold(decoded, height, |previous|);
    var types, rows := TypesOf(tail, height - 1, |previous|), Unfilter(tail, height - 1, row, bpp).value;
    FilterUnfilterRow(decoded[0], decoded[1..n], previous, bpp);
    FilterFirst(types, rows, previous, bpp, decoded[0], row);
    assert decoded == [decoded[0]] + decoded[1..n] + tail;
  }

  lemma LengthUnfold(height: nat, n: nat)
    requires height > 0
    ensures height * n == (height - 1) * n + n
  {}

  /** An accepted input is what filtering its rows with its own types gives. */
  lemma {:induction false} FilterUndoesUnfilter(decoded: seq<byte>, height: nat, previous: seq<byte>, bpp: nat)
    requires bpp >= 1 && Unfilter(decoded, height, previous, bpp).Ok?
    ensures Undone(decoded, height, previous, bpp)
    decreases height
  {
    if height > 0 {
      hide *;
      UnfilterAccepts(decoded, height, previous, bpp);
      var row := UnfilterRow(decoded[0], decoded[1..|previous| + 1], previous, bpp, |previous|);
      FilterUndoesUnfilter(decoded[|previous| + 1..], height - 1, row, bpp);
      UndoneFirst(decoded, height, previous, bpp, row);
    }
  }

  predicate KnownTypes(types: seq<byte>, rowBytes: nat) {
    rowBytes > 0 ==> forall i | 0 <= i < |types| :: types[i] <= 4
  }

  lemma TypesUnfold(decoded: seq<byte>, height: nat, rowBytes: nat)
    requires height > 0 && |decoded| == height * (rowBytes + 1)
    ensures |decoded| >= rowBytes + 1 && |decoded[rowBytes + 1..]| == (height - 1) * (rowBytes + 1)
    ensures TypesOf(decoded, height, rowBytes) == [decoded[0]] + TypesOf(decoded[rowBytes + 1..], height - 1, rowBytes)
  {
    assert height * (rowBytes + 1) == (height - 1) * (rowBytes + 1) + (rowBytes + 1);
  }

  /** What is accepted: whole rows, each of a known filter type. */
  lemma {:induction false} AcceptedExactly(decoded: seq<byte>, height: nat, previous: seq<byte>, bpp: nat)
    requires bpp >= 1
    ensures Unfilter(decoded, height, previous, bpp).Ok? <==>
            |decoded| == height * (|previous| + 1) && KnownTypes(TypesOf(decoded, height, |previous|), |previous|)
    decreases height
  {
    hide UnfilterRow;
    if Unfilter(decoded, height, previous, bpp).Ok? {
      FilterUndoesUnfilter(decoded, height, previous, bpp);
    } else if |decoded| == height * (|previous| + 1) && height > 0 {
      TypesUnfold(decoded, height, |previous|);
      var n := |previous| + 1;
      var types := TypesOf(decoded, height, |previous|);
      assert types[0] == decoded[0];
      if |previous| == 0 || decoded[0] <= 4 {
        var row := UnfilterRow(decoded[0], decoded[1..n], previous, bpp, |previous|);
        AcceptedExactly(decoded[n..], height - 1, row, bpp);
        var rest := TypesOf(decoded[n..], height - 1, |previous|);
        assert forall i | 0 <= i < |rest| :: rest[i] == types[i + 1];
      }
    }
  }

  // --- Byte by byte --------------------------------------------------------

  ghost function Gap(a: int, b: int): int {
    if a < b then b - a else a - b
  }

  /** Of left, above and upper left the one nearest to left + above - upper left, the
      first of them when they tie. */
  ghost predicate IsNearest(p: byte, left: byte, above: byte, upperLeft: byte) {
    var estimate := left + above - upperLeft;
    var gap := Gap(estimate, p);
    && gap <= Gap(estimate, left) && gap <= Gap(estimate, above) && gap <= Gap(estimate, upperLeft)
    && if gap == Gap(estimate, left) then p == left else if gap == Gap(estimate, above) then p == above else p == upperLeft
  }

  /** What a byte decodes to, by its filter type: itself, or a sum with the byte to its
      left, the one above, their mean rounded down, or the nearest of three. */
  ghost predicate DecodesTo(filterType: byte, encoded: byte, left: byte, above: byte, upperLeft: byte, decoded: byte) {
    || (filterType == 0 && decoded == encoded)
    || (filterType == 1 && decoded == (encoded + left) % 256)
    || (filterType == 2 && decoded == (encoded + above) % 256)
    || (filterType == 3 && exists p: byte :: 2 * p <= left + above <= 2 * p + 1 && decoded == (encoded + p) % 256)
    || (filterType == 4 && exists p: byte :: IsNearest(p, left, above, upperLeft) && decoded == (encoded + p) % 256)
  }

  lemma PredictDecodes(filterType: byte, encoded: byte, left: byte, above: byte, upperLeft: byte)
    requires filterType <= 4
    ensures DecodesTo(filterType, encoded, left, above, upperLeft,
                      (encoded + Predict(filterType, left, above, upperLeft)) % 256)
  {
    if filterType == 3 {
      var p: byte := (left + above) / 2;
      assert 2 * p <= left + above <= 2 * p + 1;
    } else if filterType == 4 {
      assert IsNearest(Paeth(left, above, upperLeft), left, above, upperLeft);
    }
  }

  /** The byte `bpp` places before `i`, or zero when there is none. */
  function LeftOf(row: seq<byte>, i: nat, bpp: nat): byte
    requires i < |row|
  {
    if 1 <= bpp <= i then row[i - bpp] else 0
  }

  lemma RowDecodes(filterType: byte, encoded: seq<byte>, previous: seq<byte>, bpp: nat, i: nat)
    requires bpp >= 1 && i < |encoded| == |previous| && filterType <= 4
    ensures var row := UnfilterRow(filterType, encoded, previous, bpp, |encoded|);
            DecodesTo(filterType, encoded[i], LeftOf(row, i, bpp), previous[i], LeftOf(previous, i, bpp), row[i])
  {
    hide Predict, DecodesTo;
    var row := UnfilterRow(filterType, encoded, previous, bpp, |encoded|);
    UnfilterRowPrefix(filterType, encoded, previous, bpp, i + 1, |encoded|);
    UnfilterRowPrefix(filterType, encoded, previous, bpp, i, |encoded|);
    var before := UnfilterRow(filterType, encoded, previous, bpp, i);
    assert row[i] == row[..i + 1][i];
    if i >= bpp {
      assert row[i - bpp] == row[..i][i - bpp] == before[i - bpp];
    }
    PredictDecodes(filterType, encoded[i], LeftOf(row, i, bpp), previous[i], LeftOf(previous, i, bpp));
  }

  /** The row above row `y`. */
  function Above(rows: seq<seq<byte>>, previous: seq<byte>, y: nat): seq<byte>
    requires y <= |rows|
  {
    if y == 0 then previous else rows[y - 1]
  }

  lemma Shifted(decoded: seq<byte>, n: nat, at: nat, k: nat)
    requires n + at + k < |decoded|
    ensures decoded[n..][at] == decoded[n + at]
    ensures decoded[n..][at + 1..at + 1 + k] == decoded[n + at + 1..n + at + 1 + k]
  {}

  /** Row `y` is decoded from the bytes at `at`. */
  ghost predicate IsRow(
      decoded: seq<byte>, rows: seq<seq<byte>>, previous: seq<byte>, bpp: nat, y: nat, at: nat)
    requires bpp >= 1 && y < |rows|
  {
    && at + |previous| < |decoded| && |Above(rows, previous, y)| == |previous|
    && (|previous| > 0 ==> decoded[at] <= 4)
    && rows[y] == UnfilterRow(decoded[at], decoded[at + 1..at + 1 + |previous|], Above(rows, previous, y), bpp, |previous|)
  }

  lemma LaterRow(
      decoded: seq<byte>, row: seq<byte>, rows: seq<seq<byte>>, previous: seq<byte>, bpp: nat, y: nat, at: nat)
    requires bpp >= 1 && 0 < y <= |rows| && |row| == |previous| && |previous| + 1 <= |decoded|
    requires IsRow(decoded[|previous| + 1..], rows, row, bpp, y - 1, at)
    ensures IsRow(decoded, [row] + rows, previous, bpp, y, |previous| + 1 + at)
  {
    hide UnfilterRow;
    Shifted(decoded, |previous| + 1, at, |previous|);
    assert ([row] + rows)[y] == rows[y - 1];
    assert Above([row] + rows, previous, y) == Above(rows, row, y - 1);
  }

  /** Row `y` of an accepted input starts `y` rows of bytes in. */
  lemma {:induction false} RowOf(decoded: seq<byte>, height: nat, previous: seq<byte>, bpp: nat, y: nat)
    requires bpp >= 1 && y < height && Unfilter(decoded, height, previous, bpp).Ok?
    ensures 0 <= y * (|previous| + 1) && |Unfilter(decoded, height, previous, bpp).value| == height
    ensures IsRow(decoded, Unfilter(decoded, height, previous, bpp).value, previous, bpp, y, y * (|previous| + 1))
    decreases height
  {
    hide Unfilter, UnfilterRow;
    var n := |previous| + 1;
    UnfilterAccepts(decoded, height, previous, bpp);
    var row := UnfilterRow(decoded[0], decoded[1..n], previous, bpp, n - 1);
    RowCount(decoded, height, previous, bpp);
    if y > 0 {
      hide IsRow;
      var rest := Unfilter(decoded[n..], height - 1, row, bpp);
      RowOf(decoded[n..], height - 1, row, bpp, y - 1);
      LengthUnfold(y, n);
      LaterRow(decoded, row, rest.value, previous, bpp, y, (y - 1) * n);
    }
  }

  lemma RowCount(decoded: seq<byte>, height: nat, previous: seq<byte>, bpp: nat)
    requires bpp >= 1 && Unfilter(decoded, height, previous, bpp).Ok?
    ensures |Unfilter(decoded, height, previous, bpp).value| == height
  {
    hide Unfilter, FilterImage;
    FilterUndoesUnfilter(decoded, height, previous, bpp);
  }

  /** Every byte of an accepted image is what its filter type makes of it and of the
      bytes decoded to its left, above it, and above to the left. */
  lemma ImageDecodes(decoded: seq<byte>, height: nat, previous: seq<byte>, bpp: nat, y: nat, i: nat)
    requires bpp >= 1 && y < height && i < |previous| && Unfilter(decoded, height, previous, bpp).Ok?
    ensures var rows, at := Unfilter(decoded, height, previous, bpp).value, y * (|previous| + 1);
            && |rows| == height && |rows[y]| == |Above(rows, previous, y)| == |previous|
            && 0 <= at && at + |previous| < |decoded|
            && DecodesTo(decoded[at], decoded[at + 1 + i], LeftOf(rows[y], i, bpp), Above(rows, previous, y)[i],
                         LeftOf(Above(rows, previous, y), i, bpp), rows[y][i])
  {
    hide Unfilter, UnfilterRow, DecodesTo, Above;
    RowOf(decoded, height, previous, bpp, y);
    var rows, at := Unfilter(decoded, height, previous, bpp).value, y * (|previous| + 1);
    RowDecodes(decoded[at], decoded[at + 1..at + 1 + |previous|], Above(rows, previous, y), bpp, i);
  }

  // --- The method ---------------------------------------------------------

  function PrependAll(rows: seq<seq<byte>>, rest: Result<seq<seq<byte>>>): Result<seq<seq<byte>>> {
    match rest
    case Err(e) => Err(e)
    case Ok(more) => Ok(rows + more)
  }

  /** One byte, as the source branches on the filter type. */
  method ReconstructByte(filterType: byte, value: byte, left: byte, above: byte, upperLeft: byte)
    returns (ok: bool, reconstructed: int)
    ensures ok <==> filterType <= 4
    ensures ok ==> reconstructed == value + Predict(filterType, left, above, upperLeft)
  {
    reconstructed := value;
    if filterType == 0 {
    } else if filterType == 1 {
      reconstructed := value + left;
    } else if filterType == 2 {
      reconstructed := value + above;
    } else if filterType == 3 {
      reconstructed := value + (left + above) / 2;
    } else if filterType == 4 {
      var prediction: int := left + above - upperLeft;
      var pa, pb, pc := Abs(prediction - left), Abs(prediction - above), Abs(prediction - upperLeft);
      reconstructed := value + (if pa <= pb && pa <= pc then left else if pb <= pc then above else upperLeft);
    } else {
      return false, value;
    }
    return true, reconstructed;
  }

  /** One row in place: each byte needs the row before it and the one above. */
  method ReconstructRow(filterType: byte, encoded: seq<byte>, previous: array<byte>, bpp: nat, row: array<byte>)
    returns (ok: bool)
    requires bpp >= 1 && |encoded| == previous.Length == row.Length && row != previous
    modifies row
    ensures ok <==> encoded == [] || filterType <= 4
    ensures ok ==> row[..] == UnfilterRow(filterType, encoded, previous[..], bpp, |encoded|)
  {
    hide Predict;
    for index := 0 to |encoded|
      invariant index > 0 ==> filterType <= 4
      invariant filterType <= 4 ==>
                row[..index] == UnfilterRow(filterType, encoded, previous[..], bpp, index)
    {
      var left := if index >= bpp then row[index - bpp] else 0;
      var upperLeft := if index >= bpp then previous[index - bpp] else 0;
      var known, reconstructed := ReconstructByte(filterType, encoded[index], left, previous[index], upperLeft);
      if !known {
        return false;
      }
      assert left == Before(row[..index], index, bpp) && upperLeft == Before(previous[..], index, bpp);
      row[index] := reconstructed % 256;
      assert row[..index + 1] == row[..index] + [reconstructed % 256];
    }
    assert row[..|encoded|] == row[..];
    return true;
  }

  lemma PrependAllStep(rows: seq<seq<byte>>, row: seq<byte>, rest: Result<seq<seq<byte>>>)
    ensures PrependAll(rows, Prepend(row, rest)) == PrependAll(rows + [row], rest)
    ensures PrependAll([], rest) == rest
  {
    if rest.Ok? {
      assert rows + ([row] + rest.value) == rows + [row] + rest.value;
      assert [] + rest.value == rest.value;
    }
  }

  lemma UnfilterNext(decoded: seq<byte>, offset: nat, height: nat, previous: seq<byte>, bpp: nat)
    requires bpp >= 1 && offset <= |decoded| && height > 0
    ensures var rowEnd := offset + |previous| + 1;
            Unfilter(decoded[offset..], height, previous, bpp) ==
            if rowEnd > |decoded| then Err(Truncated)
            else if |previous| > 0 && decoded[offset] > 4 then Err(UnsupportedFilter)
            else
              var row := UnfilterRow(decoded[offset], decoded[offset + 1..rowEnd], previous, bpp, |previous|);
              Prepend(row, Unfilter(decoded[rowEnd..], height - 1, row, bpp))
  {
    hide UnfilterRow;
    var rest := decoded[offset..];
    var n := |previous| + 1;
    if offset + n <= |decoded| {
      assert rest[1..n] == decoded[offset + 1..offset + n] && rest[n..] == decoded[offset + n..];
    }
  }

  method UnfilterRows(decoded: seq<byte>, rowBytes: nat, height: nat, bytesPerPixel: nat)
    returns (result: Result<seq<seq<byte>>>)
    requires bytesPerPixel >= 1
    ensures result == Unfilter(decoded, height, seq(rowBytes, _ => 0), bytesPerPixel)
  {
    hide Unfilter, UnfilterRow;
    var rows: seq<seq<byte>> := [];
    var offset := 0;
    var previous := new byte[rowBytes](_ => 0);
    assert previous[..] == seq(rowBytes, _ => 0);
    ghost var goal := Unfilter(decoded, height, previous[..], bytesPerPixel);
    assert decoded[0..] == decoded;
    PrependAllStep([], [], goal);
    for done := 0 to height
      invariant offset <= |decoded| && previous.Length == rowBytes
      invariant goal == PrependAll(rows, Unfilter(decoded[offset..], height - done, previous[..], bytesPerPixel))
    {
      UnfilterNext(decoded, offset, height - done, previous[..], bytesPerPixel);
      var rowEnd := offset + rowBytes + 1;
      if rowEnd > |decoded| {
        return Err(Truncated);
      }
      var filterType := decoded[offset];
      var row := new byte[rowBytes];
      var ok := ReconstructRow(filterType, decoded[offset + 1..rowEnd], previous, bytesPerPixel, row);
      if !ok {
        return Err(UnsupportedFilter);
      }
      PrependAllStep(rows, row[..], Unfilter(decoded[rowEnd..], height - done - 1, row[..], bytesPerPixel));
      rows := rows + [row[..]];
      previous := row;
      offset := rowEnd;
    }
    UnfilterEnd(decoded[offset..], previous[..], bytesPerPixel);
    assert rows + [] == rows;
    if offset != |decoded| {
      return Err(TrailingBytes);
    }
    return Ok(rows);
  }

  lemma UnfilterEnd(rest: seq<byte>, previous: seq<byte>, bpp: nat)
    requires bpp >= 1
    ensures Unfilter(rest, 0, previous, bpp) == if rest == [] then Ok([]) else Err(TrailingBytes)
  {}
}
