/** The PNG container of scripts/run_desktop_guidance_matrix.py (section 3.2 of RFC 2083).

    The chunk loop accepts exactly the serialisations of well-formed chunk
    lists, and recovers from them the last header and all image data. */
module PngChunks {
  import opened Bytes
  import opened PngFilters

  type u32 = n: int | 0 <= n < 0x1_0000_0000

  /** The checksum of a chunk's kind and payload; CRC-32 itself is not needed. */
  type Crc = seq<byte> -> u32

  function Checksum(crc: Crc, kind: seq<byte>, payload: seq<byte>): u32 {
    crc(kind + payload)
  }

  datatype Chunk = Chunk(kind: seq<byte>, payload: seq<byte>)

  datatype Header = Header(
    width: u32, height: u32, bitDepth: byte, colorType: byte, compression: byte, filter: byte, interlace: byte)

  datatype HeaderOption = NoHeader | Some(header: Header)

  /** What the loop carries: the last header seen, the image data, the end mark. */
  datatype Container = Container(header: HeaderOption, compressed: seq<byte>, sawEnd: bool)

  datatype ContainerError =
    | ZeroBytes | BadSignature | ChunkTruncated | PayloadTruncated | BadChecksum
    | BadHeaderLength | TrailingAfterEnd | MissingChunks | Interlaced

  datatype Parsed = Parsed(container: Container) | Failed(error: ContainerError)

  function Signature(): seq<byte> {
    [137, 80, 78, 71, 13, 10, 26, 10]
  }

  function Ihdr(): seq<byte> { [73, 72, 68, 82] }

  function Idat(): seq<byte> { [73, 68, 65, 84] }

  function Iend(): seq<byte> { [73, 69, 78, 68] }

  // --- Big-endian numbers -------------------------------------------------

  function Big32(n: u32): (s: seq<byte>)
    ensures |s| == 4
  {
    var v: int := n;
    [v / 0x100_0000, v / 0x1_0000 % 256, v / 256 % 256, v % 256]
  }

  function FromBig32(s: seq<byte>): u32
    requires |s| == 4
  {
    var a: int, b: int, c: int, d: int := s[0], s[1], s[2], s[3];
    a * 0x100_0000 + b * 0x1_0000 + c * 256 + d
  }

  lemma {:induction false} Big32RoundTrip(n: u32, s: seq<byte>)
    requires |s| == 4
    ensures FromBig32(Big32(n)) == n && Big32(FromBig32(s)) == s
  {
    var a: int, b: int, c: int, d: int := s[0], s[1], s[2], s[3];
    var m: int := FromBig32(s);
    assert m / 256 == a * 0x1_0000 + b * 256 + c && m % 256 == d;
    assert m / 0x1_0000 == a * 256 + b && m / 0x100_0000 == a;
    assert FromBig32(Big32(n)) == n by {
      var v: int := n;
      assert v / 0x1_0000 == v / 256 / 256 && v / 0x100_0000 == v / 256 / 256 / 256;
    }
  }

  // --- Writing ------------------------------------------------------------

  function HeaderBytes(h: Header): (s: seq<byte>)
    ensures |s| == 13
  {
    Big32(h.width) + Big32(h.height) + [h.bitDepth, h.colorType, h.compression, h.filter, h.interlace]
  }

  function HeaderFrom(s: seq<byte>): Header
    requires |s| == 13
  {
    Header(FromBig32(s[..4]), FromBig32(s[4..8]), s[8], s[9], s[10], s[11], s[12])
  }

  lemma {:induction false} HeaderRoundTrip(h: Header, s: seq<byte>)
    requires |s| == 13
    ensures HeaderFrom(HeaderBytes(h)) == h && HeaderBytes(HeaderFrom(s)) == s
  {
    var b := HeaderBytes(h);
    assert b[..4] == Big32(h.width) && b[4..8] == Big32(h.height);
    Big32RoundTrip(h.width, s[..4]);
    Big32RoundTrip(h.height, s[4..8]);
    assert s == s[..4] + s[4..8] + [s[8], s[9], s[10], s[11], s[12]];
  }

  predicate IsChunk(c: Chunk) {
    |c.kind| == 4 && |c.payload| < 0x1_0000_0000 && (c.kind == Ihdr() ==> |c.payload| == 13)
  }

  function ChunkBytes(crc: Crc, c: Chunk): (s: seq<byte>)
    requires IsChunk(c)
    ensures |s| == |c.payload| + 12
  {
    Big32(|c.payload|) + c.kind + c.payload + Big32(Checksum(crc, c.kind, c.payload))
  }

  /** Chunks of which the last, and no other, is the end mark. */
  ghost predicate WellFormed(chunks: seq<Chunk>) {
    && chunks != []
    && (forall i | 0 <= i < |chunks| :: IsChunk(chunks[i]))
    && (forall i | 0 <= i < |chunks| :: chunks[i].kind == Iend() <==> i == |chunks| - 1)
  }

  function Serialise(crc: Crc, chunks: seq<Chunk>): seq<byte>
    requires forall i | 0 <= i < |chunks| :: IsChunk(chunks[i])
  {
    if chunks == [] then [] else ChunkBytes(crc, chunks[0]) + Serialise(crc, chunks[1..])
  }

  /** The header that counts: the last one. */
  function LastHeader(chunks: seq<Chunk>): HeaderOption
    requires forall i | 0 <= i < |chunks| :: IsChunk(chunks[i])
  {
    if chunks == [] then NoHeader
    else
      var c := chunks[|chunks| - 1];
      assert IsChunk(c);
      if c.kind == Ihdr() then Some(HeaderFrom(c.payload)) else LastHeader(chunks[..|chunks| - 1])
  }

  /** All image data, in order. */
  function ImageData(chunks: seq<Chunk>): seq<byte> {
    if chunks == [] then []
    else (if chunks[0].kind == Idat() then chunks[0].payload else []) + ImageData(chunks[1..])
  }

  // --- Reading ------------------------------------------------------------

  function Take(acc: Container, c: Chunk): Container
    requires IsChunk(c)
  {
    if c.kind == Ihdr() then acc.(header := Some(HeaderFrom(c.payload)))
    else if c.kind == Idat() then acc.(compressed := acc.compressed + c.payload)
    else acc
  }

  function ParseFrom(crc: Crc, rest: seq<byte>, acc: Container): Parsed
    decreases |rest|
  {
    if rest == [] then Parsed(acc)
    else if |rest| < 12 then Failed(ChunkTruncated)
    else
      var length := FromBig32(rest[..4]);
      if length + 12 > |rest| then Failed(PayloadTruncated)
      else
        var kind, payload := rest[4..8], rest[8..length + 8];
        if Checksum(crc, kind, payload) != FromBig32(rest[length + 8..length + 12]) then Failed(BadChecksum)
        else if kind == Ihdr() && length != 13 then Failed(BadHeaderLength)
        else if kind == Iend() then
          if length + 12 != |rest| then Failed(TrailingAfterEnd) else Parsed(acc.(sawEnd := true))
        else ParseFrom(crc, rest[length + 12..], Take(acc, Chunk(kind, payload)))
  }

  function Complete(p: Parsed): Parsed {
    match p
    case Failed(e) => Failed(e)
    case Parsed(c) =>
      if c.header.NoHeader? || c.compressed == [] || !c.sawEnd then Failed(MissingChunks)
      else if c.header.header.interlace != 0 then Failed(Interlaced)
      else p
  }

  const START := Container(NoHeader, [], false)

  function Parse(crc: Crc, data: seq<byte>): Parsed {
    if data == [] then Failed(ZeroBytes)
    else if !(Signature() <= data) then Failed(BadSignature)
    else Complete(ParseFrom(crc, data[8..], START))
  }

  // --- Byte by byte ----------------------------------------------------------

  /** The number four bytes stand for, the high one first. */
  function HighFirst(a: int, b: int, c: int, d: int): int {
    a * 256 * 256 * 256 + b * 256 * 256 + c * 256 + d
  }

  /** The places of a header's fields: two numbers of four bytes, the high one first, then
      one byte each. */
  lemma HeaderIs(s: seq<byte>)
    requires |s| == 13
    ensures var h := HeaderFrom(s);
            && h.width == HighFirst(s[0], s[1], s[2], s[3])
            && h.height == HighFirst(s[4], s[5], s[6], s[7])
            && h.bitDepth == s[8] && h.colorType == s[9] && h.interlace == s[12]
  {}

  /** The bytes a file and its chunks are known by. */
  lemma MarksAre()
    ensures Signature() == [0x89] + Ascii("PNG") + [13, 10, 26, 10]
    ensures Ihdr() == Ascii("IHDR") && Idat() == Ascii("IDAT") && Iend() == Ascii("IEND")
  {
    hide IsUtf8;
  }

  /** Length, kind, payload, and the checksum of kind and payload together. */
  lemma ChunkIs(crc: Crc, c: Chunk)
    requires IsChunk(c)
    ensures var s, n := ChunkBytes(crc, c), |c.payload|;
            && |s| == n + 12 && FromBig32(s[..4]) == n && s[4..8] == c.kind && s[8..n + 8] == c.payload
            && FromBig32(s[n + 8..]) == crc(c.kind + c.payload)
  {
    var s, sum := ChunkBytes(crc, c), Big32(Checksum(crc, c.kind, c.payload));
    assert s[..4] == Big32(|c.payload|) && s[|c.payload| + 8..] == sum;
    Big32RoundTrip(|c.payload|, sum);
    Big32RoundTrip(Checksum(crc, c.kind, c.payload), sum);
  }

  // --- The container theorems ---------------------------------------------

  /** One chunk at the front of the rest is taken apart as it was put together. */
  lemma {:induction false} ChunkIsRead(crc: Crc, c: Chunk, more: seq<byte>)
    requires IsChunk(c)
    ensures var rest := ChunkBytes(crc, c) + more;
            && |rest| >= 12 && FromBig32(rest[..4]) == |c.payload|
            && rest[4..8] == c.kind && rest[8..|c.payload| + 8] == c.payload
            && FromBig32(rest[|c.payload| + 8..|c.payload| + 12]) == Checksum(crc, c.kind, c.payload)
            && rest[|c.payload| + 12..] == more
  {
    var rest := ChunkBytes(crc, c) + more;
    var sum := Big32(Checksum(crc, c.kind, c.payload));
    assert rest[..4] == Big32(|c.payload|) && rest[|c.payload| + 8..|c.payload| + 12] == sum;
    Big32RoundTrip(|c.payload|, sum);
    Big32RoundTrip(Checksum(crc, c.kind, c.payload), sum);
  }

  /** The other way: accepted bytes are a chunk and what follows it. */
  lemma {:induction false} ChunkIsWritten(crc: Crc, rest: seq<byte>)
    requires |rest| >= 12 && FromBig32(rest[..4]) + 12 <= |rest|
    requires var n := FromBig32(rest[..4]);
             Checksum(crc, rest[4..8], rest[8..n + 8]) == FromBig32(rest[n + 8..n + 12])
             && (rest[4..8] == Ihdr() ==> n == 13)
    ensures var n := FromBig32(rest[..4]);
            var c := Chunk(rest[4..8], rest[8..n + 8]);
            IsChunk(c) && rest == ChunkBytes(crc, c) + rest[n + 12..]
  {
    var n := FromBig32(rest[..4]);
    Big32RoundTrip(n, rest[..4]);
    Big32RoundTrip(n, rest[n + 8..n + 12]);
    var c := Chunk(rest[4..8], rest[8..n + 8]);
    assert rest == rest[..4] + rest[4..8] + rest[8..n + 8] + rest[n + 8..n + 12] + rest[n + 12..];
  }

  function TakeAll(acc: Container, chunks: seq<Chunk>): Container
    requires forall i | 0 <= i < |chunks| :: IsChunk(chunks[i])
    decreases |chunks|
  {
    if chunks == [] then acc else TakeAll(Take(acc, chunks[0]), chunks[1..])
  }

  lemma {:induction false} SerialisedIsParsed(crc: Crc, chunks: seq<Chunk>, acc: Container)
    requires WellFormed(chunks)
    ensures ParseFrom(crc, Serialise(crc, chunks), acc) == Parsed(TakeAll(acc, chunks).(sawEnd := true))
    decreases |chunks|
  {
    hide ChunkBytes, HeaderFrom;
    var c := chunks[0];
    ChunkIsRead(crc, c, Serialise(crc, chunks[1..]));
    assert Chunk(c.kind, c.payload) == c;
    if |chunks| > 1 {
      SerialisedIsParsed(crc, chunks[1..], Take(acc, c));
    } else {
      assert Serialise(crc, chunks[1..]) == [];
    }
  }

  lemma {:induction false} TakeAllMeaning(acc: Container, chunks: seq<Chunk>)
    requires forall i | 0 <= i < |chunks| :: IsChunk(chunks[i])
    ensures var t := TakeAll(acc, chunks);
            && t.compressed == acc.compressed + ImageData(chunks) && t.sawEnd == acc.sawEnd
            && t.header == if LastHeader(chunks).Some? then LastHeader(chunks) else acc.header
    decreases |chunks|
  {
    hide HeaderFrom;
    if chunks != [] {
      TakeAllMeaning(Take(acc, chunks[0]), chunks[1..]);
      LastHeaderUnfold(chunks);
    }
  }

  lemma {:induction false} LastHeaderUnfold(chunks: seq<Chunk>)
    requires chunks != [] && forall i | 0 <= i < |chunks| :: IsChunk(chunks[i])
    ensures LastHeader(chunks) ==
            if LastHeader(chunks[1..]).Some? then LastHeader(chunks[1..])
            else if chunks[0].kind == Ihdr() then Some(HeaderFrom(chunks[0].payload)) else NoHeader
    decreases |chunks|
  {
    hide HeaderFrom;
    var k := |chunks| - 1;
    if k == 0 {
      assert chunks[..0] == [];
    } else {
      LastHeaderUnfold(chunks[..k]);
      assert chunks[..k][1..] == chunks[1..][..k - 1];
      assert chunks[1..][k - 1] == chunks[k];
    }
  }

  /** Every well-formed chunk list with a header, image data and no interlacing
      is read back: its last header, and its image data in order. */
  lemma {:induction false} SerialisedContainerIsRead(crc: Crc, chunks: seq<Chunk>)
    requires WellFormed(chunks)
    ensures Parse(crc, Signature() + Serialise(crc, chunks)) ==
            if LastHeader(chunks).NoHeader? || ImageData(chunks) == [] then Failed(MissingChunks)
            else if LastHeader(chunks).header.interlace != 0 then Failed(Interlaced)
            else Parsed(Container(LastHeader(chunks), ImageData(chunks), true))
  {
    hide HeaderFrom, ChunkBytes;
    var data := Signature() + Serialise(crc, chunks);
    assert data[8..] == Serialise(crc, chunks);
    SerialisedIsParsed(crc, chunks, START);
    TakeAllMeaning(START, chunks);
  }

  /** The header written last is the one that counts, field by field. */
  lemma {:induction false} LastHeaderIs(chunks: seq<Chunk>, i: nat, h: Header)
    requires forall j | 0 <= j < |chunks| :: IsChunk(chunks[j])
    requires i < |chunks| && chunks[i] == Chunk(Ihdr(), HeaderBytes(h))
    requires forall j | i < j < |chunks| :: chunks[j].kind != Ihdr()
    ensures LastHeader(chunks) == Some(h)
    decreases |chunks|
  {
    hide HeaderFrom, HeaderBytes;
    var k := |chunks| - 1;
    if i == k {
      HeaderRoundTrip(h, HeaderBytes(h));
    } else {
      LastHeaderIs(chunks[..k], i, h);
    }
  }

  /** What was written comes back: the width, height and other fields of the last
      header, and the image data in order. */
  lemma WrittenHeaderIsRead(crc: Crc, chunks: seq<Chunk>, i: nat, h: Header)
    requires WellFormed(chunks) && i < |chunks| && chunks[i] == Chunk(Ihdr(), HeaderBytes(h))
    requires forall j | i < j < |chunks| :: chunks[j].kind != Ihdr()
    requires ImageData(chunks) != [] && h.interlace == 0
    ensures Parse(crc, Signature() + Serialise(crc, chunks)) == Parsed(Container(Some(h), ImageData(chunks), true))
  {
    hide HeaderFrom, HeaderBytes, Serialise, ImageData;
    LastHeaderIs(chunks, i, h);
    SerialisedContainerIsRead(crc, chunks);
  }

  /** A chunk that is no end chunk before a well-formed list. */
  lemma ChunkInFront(crc: Crc, c: Chunk, more: seq<Chunk>)
    requires IsChunk(c) && c.kind != Iend() && WellFormed(more)
    ensures WellFormed([c] + more) && Serialise(crc, [c] + more) == ChunkBytes(crc, c) + Serialise(crc, more)
  {
    hide IsChunk, ChunkBytes, Iend;
    var all := [c] + more;
    assert all[1..] == more;
    assert forall i | 0 < i < |all| :: all[i] == more[i - 1];
  }

  lemma LastChunk(crc: Crc, c: Chunk)
    requires IsChunk(c) && c.kind == Iend()
    ensures WellFormed([c]) && Serialise(crc, [c]) == ChunkBytes(crc, c)
  {
    hide IsChunk, ChunkBytes, Iend;
    assert [c][1..] == [];
  }

  lemma {:induction false} ParsedIsSerialised(crc: Crc, rest: seq<byte>, acc: Container) returns (chunks: seq<Chunk>)
    requires ParseFrom(crc, rest, acc).Parsed? && ParseFrom(crc, rest, acc).container.sawEnd && !acc.sawEnd
    ensures WellFormed(chunks) && rest == Serialise(crc, chunks)
    decreases |rest|
  {
    hide ChunkBytes, HeaderFrom, FromBig32, Checksum, Iend, Ihdr, Idat, Serialise;
    var n := FromBig32(rest[..4]);
    var c := Chunk(rest[4..8], rest[8..n + 8]);
    ChunkIsWritten(crc, rest);
    if c.kind == Iend() {
      chunks := [c];
      LastChunk(crc, c);
      assert rest[n + 12..] == [];
    } else {
      var more := ParsedIsSerialised(crc, rest[n + 12..], Take(acc, c));
      chunks := [c] + more;
      ChunkInFront(crc, c, more);
    }
  }

  /** Nothing else is accepted: accepted data is the signature and a serialised
      well-formed list, whose header and image data are those returned. */
  lemma {:induction false} AcceptedIsSerialised(crc: Crc, data: seq<byte>) returns (chunks: seq<Chunk>)
    requires Parse(crc, data).Parsed?
    ensures WellFormed(chunks) && data == Signature() + Serialise(crc, chunks)
    ensures Parse(crc, data).container == Container(LastHeader(chunks), ImageData(chunks), true)
  {
    hide ParseFrom;
    assert data == Signature() + data[8..];
    chunks := ParsedIsSerialised(crc, data[8..], START);
    SerialisedContainerIsRead(crc, chunks);
  }

  lemma {:induction false} ChunksAreTaken(crc: Crc, chunks: seq<Chunk>, rest: seq<byte>, acc: Container)
    requires forall i | 0 <= i < |chunks| :: IsChunk(chunks[i]) && chunks[i].kind != Iend()
    ensures ParseFrom(crc, Serialise(crc, chunks) + rest, acc) == ParseFrom(crc, rest, TakeAll(acc, chunks))
    decreases |chunks|
  {
    hide ChunkBytes, HeaderFrom;
    if chunks == [] {
      assert Serialise(crc, chunks) + rest == rest;
    } else {
      var c, more := chunks[0], Serialise(crc, chunks[1..]) + rest;
      ChunkIsRead(crc, c, more);
      assert Serialise(crc, chunks) + rest == ChunkBytes(crc, c) + more;
      assert Chunk(c.kind, c.payload) == c;
      ChunksAreTaken(crc, chunks[1..], rest, Take(acc, c));
    }
  }

  /** What reading at least twelve bytes must report when something is wrong at their front. */
  ghost predicate ReportsFault(crc: Crc, rest: seq<byte>, result: Parsed)
    requires |rest| >= 12
  {
    var n := FromBig32(rest[..4]);
    if |rest| - 12 < n then result == Failed(PayloadTruncated)
    else if crc(rest[4..n + 8]) != FromBig32(rest[n + 8..n + 12]) then result == Failed(BadChecksum)
    else
      && (rest[4..8] == Ihdr() && n != 13 ==> result == Failed(BadHeaderLength))
      && (rest[4..8] == Iend() && |rest| - 12 > n ==> result == Failed(TrailingAfterEnd))
  }

  lemma FaultInFront(crc: Crc, rest: seq<byte>, acc: Container)
    requires |rest| >= 12
    ensures ReportsFault(crc, rest, Complete(ParseFrom(crc, rest, acc)))
  {
    hide Take, HeaderFrom, FromBig32, IsChunk;
    assert Ihdr()[1] == 72 && Iend()[1] == 69;
    hide Ihdr, Iend, Idat;
    var n := FromBig32(rest[..4]);
    if |rest| - 12 >= n { assert rest[4..8] + rest[8..n + 8] == rest[4..n + 8]; }
  }

  lemma ParseStarts(crc: Crc, tail: seq<byte>)
    ensures Parse(crc, Signature() + tail) == Complete(ParseFrom(crc, tail, START))
  {
    hide ParseFrom;
    assert (Signature() + tail)[8..] == tail;
  }

  lemma NoEndYet(crc: Crc, rest: seq<byte>, chunks: seq<Chunk>)
    requires |rest| < 12 && forall i | 0 <= i < |chunks| :: IsChunk(chunks[i])
    ensures Complete(ParseFrom(crc, rest, TakeAll(START, chunks))) ==
            Failed(if rest == [] then MissingChunks else ChunkTruncated)
  {
    TakeAllMeaning(START, chunks);
    hide TakeAll, IsChunk, ImageData, LastHeader;
  }

  /** What is wrong after whole chunks is reported: too few bytes for a chunk or for its
      payload, a wrong checksum, a header of a wrong length, bytes after the end, or no end. */
  lemma FirstFaultIsReported(crc: Crc, chunks: seq<Chunk>, rest: seq<byte>)
    requires forall i | 0 <= i < |chunks| :: IsChunk(chunks[i]) && chunks[i].kind != Iend()
    ensures var result := Parse(crc, Signature() + (Serialise(crc, chunks) + rest));
            if rest == [] then result == Failed(MissingChunks)
            else if |rest| < 12 then result == Failed(ChunkTruncated)
            else ReportsFault(crc, rest, result)
  {
    hide Parse, ParseFrom, Complete, Serialise, TakeAll, Iend, IsChunk, ReportsFault, Signature;
    ChunksAreTaken(crc, chunks, rest, START);
    ParseStarts(crc, Serialise(crc, chunks) + rest);
    if |rest| >= 12 {
      FaultInFront(crc, rest, TakeAll(START, chunks));
    } else {
      NoEndYet(crc, rest, chunks);
    }
  }

  /** Nothing else has the signature checked away: no bytes, and other first bytes. */
  lemma SignatureIsChecked(crc: Crc, data: seq<byte>)
    ensures Parse(crc, data) == Failed(ZeroBytes) <==> data == []
    ensures Parse(crc, data) == Failed(BadSignature) <==> data != [] && (|data| < 8 || data[..8] != Signature())
  {
    ParseFaults(crc, if |data| >= 8 then data[8..] else [], START);
  }

  lemma {:induction false} ParseFaults(crc: Crc, rest: seq<byte>, acc: Container)
    ensures ParseFrom(crc, rest, acc) != Failed(ZeroBytes) && ParseFrom(crc, rest, acc) != Failed(BadSignature)
    decreases |rest|
  {
    hide Take, Checksum;
    var n := if |rest| >= 12 then FromBig32(rest[..4]) else 0;
    if |rest| >= n + 12 && IsChunk(Chunk(rest[4..8], rest[8..n + 8])) {
      ParseFaults(crc, rest[n + 12..], Take(acc, Chunk(rest[4..8], rest[8..n + 8])));
    }
  }

  // --- The loop -----------------------------------------------------------

  /** One turn of `ParseFrom`, in terms of the offsets the loop uses. */
  lemma ParseNext(crc: Crc, data: seq<byte>, offset: nat, acc: Container)
    requires offset < |data|
    ensures data[|data|..] == []
    ensures ParseFrom(crc, data[offset..], acc) ==
            if offset + 12 > |data| then Failed(ChunkTruncated)
            else
              var length := FromBig32(data[offset..offset + 4]);
              if offset + 8 + length + 4 > |data| then Failed(PayloadTruncated)
              else
                var kind := data[offset + 4..offset + 8];
                var payload := data[offset + 8..offset + 8 + length];
                var end := offset + 8 + length + 4;
                if Checksum(crc, kind, payload) != FromBig32(data[offset + 8 + length..end]) then Failed(BadChecksum)
                else if kind == Ihdr() && length != 13 then Failed(BadHeaderLength)
                else if kind == Iend() then
                  if end != |data| then Failed(TrailingAfterEnd) else Parsed(acc.(sawEnd := true))
                else ParseFrom(crc, data[end..], Take(acc, Chunk(kind, payload)))
  {
    hide FromBig32, HeaderFrom, Take;
    var rest := data[offset..];
    if offset + 12 <= |data| {
      assert rest[..4] == data[offset..offset + 4];
      var length := FromBig32(rest[..4]);
      if length + 12 <= |rest| {
        SlicesAgree(data, offset, length);
      }
    }
  }

  lemma ParseNothing(crc: Crc, acc: Container)
    ensures ParseFrom(crc, [], acc) == Parsed(acc)
  {}

  lemma SlicesAgree(data: seq<byte>, offset: nat, length: nat)
    requires offset + length + 12 <= |data|
    ensures var rest := data[offset..];
            && rest[4..8] == data[offset + 4..offset + 8]
            && rest[8..length + 8] == data[offset + 8..offset + 8 + length]
            && rest[length + 8..length + 12] == data[offset + 8 + length..offset + 8 + length + 4]
            && rest[length + 12..] == data[offset + 8 + length + 4..]
  {}

  /** The chunk loop: every index is in bounds, every turn makes progress, and
      the outcome is that of `Parse` on every input. */
  method ReadContainer(crc: Crc, data: seq<byte>) returns (result: Parsed)
    ensures result == Parse(crc, data)
  {
    hide HeaderFrom, FromBig32, ParseFrom;
    if data == [] {
      return Failed(ZeroBytes);
    }
    if !(Signature() <= data) {
      return Failed(BadSignature);
    }
    var offset := 8;
    var header, compressed, sawEnd := NoHeader, [], false;
    while offset < |data|
      invariant 8 <= offset <= |data| && !sawEnd
      invariant ParseFrom(crc, data[8..], START) ==
                ParseFrom(crc, data[offset..], Container(header, compressed, false))
      decreases |data| - offset
    {
      ParseNext(crc, data, offset, Container(header, compressed, false));
      if offset + 12 > |data| {
        return Failed(ChunkTruncated);
      }
      var length := FromBig32(data[offset..offset + 4]);
      var kind := data[offset + 4..offset + 8];
      var payloadStart := offset + 8;
      var payloadEnd := payloadStart + length;
      var checksumEnd := payloadEnd + 4;
      if checksumEnd > |data| {
        return Failed(PayloadTruncated);
      }
      var payload := data[payloadStart..payloadEnd];
      if Checksum(crc, kind, payload) != FromBig32(data[payloadEnd..checksumEnd]) {
        return Failed(BadChecksum);
      }
      if kind == Ihdr() {
        if length != 13 {
          return Failed(BadHeaderLength);
        }
        header := Some(HeaderFrom(payload));
      } else if kind == Idat() {
        compressed := compressed + payload;
      } else if kind == Iend() {
        sawEnd := true;
        if checksumEnd != |data| {
          return Failed(TrailingAfterEnd);
        }
        break;
      }
      offset := checksumEnd;
    }
    ParseNothing(crc, Container(header, compressed, false));
    assert !sawEnd ==> data[offset..] == [];
    if header.NoHeader? || compressed == [] || !sawEnd {
      return Failed(MissingChunks);
    }
    if header.header.interlace != 0 {
      return Failed(Interlaced);
    }
    return Parsed(Container(header, compressed, true));
  }
}
