/**
 * create_png of scripts/basic_image_generator.py: a dependency-free PNG writer
 * following the PNG Specification, Second Edition (ISO/IEC 15948). The zlib
 * compressor is the parameter `compress`; CRC-32 is the Crc32 module.
 *
 * A reader for the same framing is defined beside the writer, and the lemmas
 * show that reading the writer's output gives back what was written.
 */
module Png {
  import opened Wrappers
  import opened Bytes
  import Crc32
  import opened Pixels

  /** struct.pack raises struct.error; nothing else in create_png fails. */
  datatype PngError = StructError

  /** Section 5.2 of ISO/IEC 15948: 89 50 4E 47 0D 0A 1A 0A. */
  const Signature: seq<byte> := [0x89, 0x50, 0x4E, 0x47, 0x0D, 0x0A, 0x1A, 0x0A]

  /** The chunk types, as their ASCII bytes. */
  const IHDR: seq<byte> := [0x49, 0x48, 0x44, 0x52]
  const IDAT: seq<byte> := [0x49, 0x44, 0x41, 0x54]
  const IEND: seq<byte> := [0x49, 0x45, 0x4E, 0x44]

  /** Bit depth 8 and colour type 2 (truecolour) as declared in the header. */
  const BitDepth: byte := 8
  const ColourType: byte := 2

  // ---------------------------------------------------------------- chunks

  /**
   * write_chunk (section 5.3 of ISO/IEC 15948): the length of the data, the
   * type, the data, then the CRC computed incrementally as
   * crc32(data, crc32(type)).
   */
  function WriteChunk(kind: seq<byte>, data: seq<byte>): (r: Result<seq<byte>, PngError>)
    requires |kind| == 4
    ensures r.Ok? <==> InU32(|data|)
    ensures r.Ok? ==> Framed(r.value, kind, data)
  {
    match PackU32(|data|)
    case None => Err(StructError)
    case Some(length) =>
      var crc := Crc32.Crc(data, Crc32.Checksum(kind));
      Crc32.Incremental(kind, data);
      var check := PackU32(crc as int).value;
      var c := length + kind + data + check;
      assert c[..4] == length;
      assert c[4..8] == kind;
      assert c[8..8 + |data|] == data;
      assert c[8 + |data|..] == check;
      Ok(c)
  }

  /**
   * The chunk layout of section 5.3 of ISO/IEC 15948: a 4-byte big-endian
   * length, the 4-byte type, the data, and the CRC-32 of type and data.
   */
  ghost predicate Framed(c: seq<byte>, kind: seq<byte>, data: seq<byte>) {
    && |kind| == 4
    && |c| == 12 + |data|
    && FromBe32(c[..4]) == |data|
    && c[4..8] == kind
    && c[8..8 + |data|] == data
    && FromBe32(c[8 + |data|..]) == Crc32.Checksum(kind + data) as int
  }

  datatype Chunk = Chunk(kind: seq<byte>, data: seq<byte>)

  /**
   * Reads one chunk from the front of s: its length, type, data and CRC.
   * Fails when s is too short or the CRC does not match type and data.
   */
  function ReadChunk(s: seq<byte>): (r: Option<(Chunk, seq<byte>)>)
    ensures r.Some? ==> |r.value.1| < |s|
  {
    if |s| < 12 then None
    else
      var n := FromBe32(s[..4]);
      if |s| < 12 + n then None
      else
        var kind := s[4..8];
        var data := s[8..8 + n];
        if FromBe32(s[8 + n..12 + n]) != Crc32.Checksum(kind + data) as int then None
        else Some((Chunk(kind, data), s[12 + n..]))
  }

  /** Reads chunks until the input is used up. */
  function ReadChunks(s: seq<byte>): Option<seq<Chunk>>
    decreases |s|
  {
    if s == [] then Some([])
    else match ReadChunk(s)
      case None => None
      case Some((c, rest)) =>
        match ReadChunks(rest)
        case None => None
        case Some(cs) => Some([c] + cs)
  }

  /** A PNG datastream: the signature, then its chunks. */
  function DecodePng(s: seq<byte>): Option<seq<Chunk>> {
    if |s| >= 8 && s[..8] == Signature then ReadChunks(s[8..]) else None
  }

  /** Reading back a written chunk gives its type and data, and leaves what follows. */
  lemma ReadFramedChunk(c: seq<byte>, kind: seq<byte>, data: seq<byte>, rest: seq<byte>)
    requires Framed(c, kind, data)
    ensures ReadChunk(c + rest) == Some((Chunk(kind, data), rest))
  {
    var s := c + rest;
    var n := |data|;
    assert s[..4] == c[..4];
    assert s[4..8] == c[4..8];
    assert s[8..8 + n] == c[8..8 + n];
    assert s[8 + n..12 + n] == c[8 + n..];
    assert s[12 + n..] == rest;
  }

  // ---------------------------------------------------------------- header

  /**
   * struct.pack("!2I5B", width, height, 8, 2, 0, 0, 0), the IHDR data
   * (section 11.2.2 of ISO/IEC 15948).
   */
  function IhdrPayload(width: int, height: int): (r: Result<seq<byte>, PngError>)
    ensures r.Ok? <==> InU32(width) && InU32(height)
    ensures r.Ok? ==> |r.value| == 13 && r.value[8..] == [BitDepth, ColourType, 0, 0, 0]
  {
    match (PackU32(width), PackU32(height))
    case (Some(w), Some(h)) => Ok(w + h + [BitDepth, ColourType, 0, 0, 0])
    case _ => Err(StructError)
  }

  datatype Header = Header(width: u32, height: u32, bitDepth: byte, colourType: byte,
                           compression: byte, filter: byte, interlace: byte)

  /** Reads the 13-byte IHDR data. */
  function ParseHeader(p: seq<byte>): Option<Header> {
    if |p| != 13 then None
    else Some(Header(FromBe32(p[..4]), FromBe32(p[4..8]), p[8], p[9], p[10], p[11], p[12]))
  }

  /** The written header declares the given size, depth 8, colour type 2, and zeros. */
  lemma HeaderRoundTrip(width: int, height: int)
    requires InU32(width) && InU32(height)
    ensures ParseHeader(IhdrPayload(width, height).value) == Some(Header(width, height, 8, 2, 0, 0, 0))
  {
    var p := IhdrPayload(width, height).value;
    assert p[..4] == PackU32(width).value;
    assert p[4..8] == PackU32(height).value;
  }

  // ---------------------------------------------------------------- scanlines

  /** struct.pack("!%dI" % len(row), *row): the words of a row, big-endian. */
  function PackWords(row: seq<u32>): (r: seq<byte>)
    ensures |r| == 4 * |row|
  {
    if row == [] then [] else Be32(row[0]) + PackWords(row[1..])
  }

  /** A scanline: filter type 0 (section 9 of ISO/IEC 15948), then the row's words. */
  function Scanline(row: seq<u32>): (line: seq<byte>)
    ensures |line| == 1 + 4 * |row| && line[0] == 0
    ensures line[1..] == PackWords(row)
  {
    [0] + PackWords(row)
  }

  /**
   * raw_data: the scanlines of all rows. struct.pack raises when a row does
   * not hold exactly `width` words.
   */
  function RawData(width: int, rows: seq<seq<u32>>): (r: Result<seq<byte>, PngError>)
    ensures r.Ok? <==> forall i :: 0 <= i < |rows| ==> |rows[i]| == width
    ensures r.Ok? ==> |r.value| == |rows| * (1 + 4 * width)
    decreases |rows|
  {
    if rows == [] then Ok([])
    else if |rows[0]| != width then Err(StructError)
    else
      match RawData(width, rows[1..])
      case Err(e) => Err(e)
      case Ok(rest) =>
        assert |Scanline(rows[0]) + rest| == (1 + 4 * width) + (|rows| - 1) * (1 + 4 * width);
        Ok(Scanline(rows[0]) + rest)
  }

  /** Reads 4-byte big-endian words. */
  function ParseWords(s: seq<byte>): seq<u32>
    requires |s| % 4 == 0
  {
    if s == [] then [] else [FromBe32(s[..4])] + ParseWords(s[4..])
  }

  lemma {:induction false} ParseWordsRoundTrip(row: seq<u32>)
    ensures ParseWords(PackWords(row)) == row
  {
    if row != [] {
      var s := PackWords(row);
      assert s[..4] == Be32(row[0]);
      assert s[4..] == PackWords(row[1..]);
      Be32RoundTrip(row[0]);
      ParseWordsRoundTrip(row[1..]);
    }
  }

  /**
   * Splits raw image data into scanlines of 1 + 4 * width bytes, each with
   * filter type 0, and reads each row's words.
   */
  function ParseScanlines(width: nat, raw: seq<byte>): Option<seq<seq<u32>>>
    decreases |raw|
  {
    var stride := 1 + 4 * width;
    if raw == [] then Some([])
    else if |raw| < stride || raw[0] != 0 then None
    else
      match ParseScanlines(width, raw[stride..])
      case None => None
      case Some(rows) => Some([ParseWords(raw[1..stride])] + rows)
  }

  /** Reading the raw data back recovers every row. */
  lemma {:induction false} RawDataRoundTrip(width: nat, rows: seq<seq<u32>>)
    requires RawData(width, rows).Ok?
    ensures ParseScanlines(width, RawData(width, rows).value) == Some(rows)
    decreases |rows|
  {
    if rows != [] {
      var raw := RawData(width, rows).value;
      var stride := 1 + 4 * width;
      var rest := RawData(width, rows[1..]).value;
      assert raw == Scanline(rows[0]) + rest;
      assert raw[0] == 0 && |raw| >= stride;
      assert raw[stride..] == rest;
      assert raw[1..stride] == PackWords(rows[0]);
      ParseWordsRoundTrip(rows[0]);
      RawDataRoundTrip(width, rows[1..]);
      assert ParseScanlines(width, rest) == Some(rows[1..]);
      assert [rows[0]] + rows[1..] == rows;
    }
  }

  /** Bytes 1 + 4j .. 4 + 4j of a row's scanline are pixel j as r, g, b, 255. */
  lemma {:induction false} PixelInScanline(row: seq<Rgb>, j: nat)
    requires j < |row|
    ensures var line := Scanline(Packed([row])[0]);
      |line| == 1 + 4 * |row| && line[1 + 4 * j..5 + 4 * j] == [row[j].r, row[j].g, row[j].b, 0xFF]
  {
    var words := Packed([row])[0];
    WordAt(words, j);
    assert words[j] == Pack(row[j]);
  }

  lemma {:induction false} WordAt(row: seq<u32>, j: nat)
    requires j < |row|
    ensures PackWords(row)[4 * j..4 * j + 4] == Be32(row[j])
  {
    if j > 0 {
      WordAt(row[1..], j - 1);
      assert PackWords(row) == Be32(row[0]) + PackWords(row[1..]);
    }
  }

  /**
   * The header declares colour type 2 at depth 8, three bytes a pixel, yet
   * every pixel is written as four bytes. Whenever the image is non-empty the
   * raw data is longer than the header's geometry allows.
   */
  lemma ScanlinesDisagreeWithHeader(width: int, height: int, rows: seq<seq<u32>>)
    requires RawData(width, rows).Ok? && IhdrPayload(width, height).Ok?
    requires |rows| == height && width > 0 && height > 0
    ensures |RawData(width, rows).value| == height * (1 + 4 * width)
    ensures |RawData(width, rows).value| > height * (1 + 3 * width)
  {
    FourBytesExceedThree(width, height);
  }

  lemma FourBytesExceedThree(width: int, height: int)
    requires width > 0 && height > 0
    ensures height * (1 + 4 * width) > height * (1 + 3 * width)
  {
    assert height * (1 + 4 * width) == height * (1 + 3 * width) + height * width;
    assert height * width > 0;
  }

  // ---------------------------------------------------------------- file

  /**
   * write_png: the signature, then IHDR, one IDAT holding the compressed raw
   * data, and an empty IEND.
   */
  function WritePng(width: int, height: int, rows: seq<seq<u32>>, compress: seq<byte> -> seq<byte>)
    : (r: Result<seq<byte>, PngError>)
    ensures r.Ok? <==>
      && RawData(width, rows).Ok?
      && InU32(width) && InU32(height)
      && InU32(|compress(RawData(width, rows).value)|)
    ensures r.Ok? ==>
      && |r.value| == 57 + |compress(RawData(width, rows).value)|
      && r.value[..8] == Signature
  {
    var raw :- RawData(width, rows);
    var compressed := compress(raw);
    var ihdr :- IhdrPayload(width, height);
    // The IHDR and IEND chunks hold 13 and 0 bytes, so only IDAT can overflow.
    var body :- WriteChunk(IDAT, compressed);
    Ok(Assemble(WriteChunk(IHDR, ihdr).value, body, WriteChunk(IEND, []).value))
  }

  /** The signature followed by the three chunks. */
  function Assemble(header: seq<byte>, body: seq<byte>, trailer: seq<byte>): (r: seq<byte>)
    ensures |r| == 8 + |header| + |body| + |trailer|
    ensures r[..8] == Signature && r[8..] == header + (body + trailer)
  {
    var r := Signature + (header + (body + trailer));
    assert r[..8] == Signature;
    assert r[8..] == header + (body + trailer);
    assert r == Signature + header + body + trailer;
    r
  }

  // ---------------------------------------------------------------- trailer

  /** The register after each byte of "IEND". */
  lemma IendRegisters()
    ensures Crc32.Step(0xFFFF_FFFF, 0x49) == 0x22FD_E946
    ensures Crc32.Step(0x22FD_E946, 0x45) == 0x992B_AC53
    ensures Crc32.Step(0x992B_AC53, 0x4E) == 0x639F_4775
    ensures Crc32.Step(0x639F_4775, 0x44) == 0x51BD_9F7D
  {
    assert Crc32.Step(0xFFFF_FFFF, 0x49) == 0x22FD_E946;
    assert Crc32.Step(0x22FD_E946, 0x45) == 0x992B_AC53;
    assert Crc32.Step(0x992B_AC53, 0x4E) == 0x639F_4775;
  }

  /** The CRC of the chunk type "IEND" is AE 42 60 82. */
  lemma IendCheckValue()
    ensures Crc32.Checksum(IEND) == 0xAE42_6082
  {
    IendRegisters();
    Crc32.FoldFour(Crc32.Step, 0xFFFF_FFFF, 0x22FD_E946, 0x992B_AC53, 0x639F_4775, 0x51BD_9F7D, IEND);
    assert Crc32.Register(0xFFFF_FFFF, IEND) == 0x51BD_9F7D;
    assert !(0 as bv32) == 0xFFFF_FFFF;
    assert !(0x51BD_9F7D as bv32) == 0xAE42_6082;
  }

  /** A chunk without data is a zero length, its type and the check bytes of the type. */
  lemma EmptyChunk(c: seq<byte>, kind: seq<byte>, check: seq<byte>)
    requires Framed(c, kind, [])
    requires |check| == 4 && FromBe32(check) == Crc32.Checksum(kind) as int
    ensures c == [0, 0, 0, 0] + kind + check
  {
    assert c[..4] == [0, 0, 0, 0] by {
      FromBe32RoundTrip(c[..4]);
    }
    assert c[8..] == check by {
      assert kind + [] == kind;
      FromBe32RoundTrip(c[8..]);
      FromBe32RoundTrip(check);
    }
    assert c == c[..4] + c[4..8] + c[8..];
  }

  /** A framed IEND chunk without data is the fixed 12 bytes 00 00 00 00 "IEND" AE 42 60 82. */
  lemma IendFramed(c: seq<byte>)
    requires Framed(c, IEND, [])
    ensures c == [0, 0, 0, 0] + IEND + [0xAE, 0x42, 0x60, 0x82]
  {
    IendCheckValue();
    EmptyChunk(c, IEND, [0xAE, 0x42, 0x60, 0x82]);
  }

  /** The empty IEND chunk that write_png appends is those 12 bytes. */
  lemma IendChunk()
    ensures WriteChunk(IEND, []).Ok?
    ensures WriteChunk(IEND, []).value == [0, 0, 0, 0] + IEND + [0xAE, 0x42, 0x60, 0x82]
  {
    IendFramed(WriteChunk(IEND, []).value);
  }

  /** The last bytes of an assembled file are its trailer. */
  lemma AssembleEndsWith(header: seq<byte>, body: seq<byte>, trailer: seq<byte>)
    ensures Assemble(header, body, trailer)[8 + |header| + |body|..] == trailer
  {
    var r := Assemble(header, body, trailer);
    assert r[8..][|header| + |body|..] == trailer;
  }

  /** Every written file ends with that IEND chunk. */
  lemma WritePngTrailer(width: int, height: int, rows: seq<seq<u32>>, compress: seq<byte> -> seq<byte>)
    requires WritePng(width, height, rows, compress).Ok?
    ensures var f := WritePng(width, height, rows, compress).value;
      |f| >= 12 && f[|f| - 12..] == [0, 0, 0, 0] + IEND + [0xAE, 0x42, 0x60, 0x82]
  {
    WritePngAssembles(width, height, rows, compress);
    IendChunk();
    AssembleEndsWith(WriteChunk(IHDR, IhdrPayload(width, height).value).value,
                     WriteChunk(IDAT, compress(RawData(width, rows).value)).value,
                     WriteChunk(IEND, []).value);
  }

  /**
   * Reading the written file recovers exactly three chunks: the IHDR data,
   * the compressed raw data and an empty IEND.
   */
  lemma PngRoundTrip(width: int, height: int, rows: seq<seq<u32>>, compress: seq<byte> -> seq<byte>)
    requires WritePng(width, height, rows, compress).Ok?
    ensures DecodePng(WritePng(width, height, rows, compress).value) ==
      Some([Chunk(IHDR, IhdrPayload(width, height).value),
            Chunk(IDAT, compress(RawData(width, rows).value)),
            Chunk(IEND, [])])
  {
    var ihdr := IhdrPayload(width, height).value;
    var compressed := compress(RawData(width, rows).value);
    WritePngAssembles(width, height, rows, compress);
    DecodeFramed(WriteChunk(IHDR, ihdr).value, WriteChunk(IDAT, compressed).value, WriteChunk(IEND, []).value,
                 ihdr, compressed);
  }

  lemma WritePngAssembles(width: int, height: int, rows: seq<seq<u32>>, compress: seq<byte> -> seq<byte>)
    requires WritePng(width, height, rows, compress).Ok?
    ensures IhdrPayload(width, height).Ok? && InU32(|compress(RawData(width, rows).value)|)
    ensures WritePng(width, height, rows, compress).value ==
      Assemble(WriteChunk(IHDR, IhdrPayload(width, height).value).value,
               WriteChunk(IDAT, compress(RawData(width, rows).value)).value,
               WriteChunk(IEND, []).value)
  {
  }

  /** Three framed chunks behind the signature read back as those chunks. */
  lemma DecodeFramed(header: seq<byte>, body: seq<byte>, trailer: seq<byte>, ihdr: seq<byte>, compressed: seq<byte>)
    requires Framed(header, IHDR, ihdr) && Framed(body, IDAT, compressed) && Framed(trailer, IEND, [])
    ensures DecodePng(Assemble(header, body, trailer)) ==
      Some([Chunk(IHDR, ihdr), Chunk(IDAT, compressed), Chunk(IEND, [])])
  {
    ReadFramedChunk(header, IHDR, ihdr, body + trailer);
    ReadFramedChunk(body, IDAT, compressed, trailer);
    ReadFramedChunk(trailer, IEND, [], []);
    assert trailer + [] == trailer;
    DecodeAssembled(header, body, trailer, Chunk(IHDR, ihdr), Chunk(IDAT, compressed), Chunk(IEND, []));
  }

  /** Three chunks that read one after the other make a datastream of those three chunks. */
  lemma DecodeAssembled(header: seq<byte>, body: seq<byte>, trailer: seq<byte>, c1: Chunk, c2: Chunk, c3: Chunk)
    requires ReadChunk(header + (body + trailer)) == Some((c1, body + trailer))
    requires ReadChunk(body + trailer) == Some((c2, trailer))
    requires ReadChunk(trailer) == Some((c3, []))
    ensures DecodePng(Assemble(header, body, trailer)) == Some([c1, c2, c3])
  {
    assert ReadChunks([]) == Some([]);
    ReadChunksStep(trailer, c3, [], []);
    assert [c3] + [] == [c3];
    ReadChunksStep(body + trailer, c2, trailer, [c3]);
    assert [c2] + [c3] == [c2, c3];
    ReadChunksStep(header + (body + trailer), c1, body + trailer, [c2, c3]);
    assert [c1] + [c2, c3] == [c1, c2, c3];
  }

  lemma ReadChunksStep(s: seq<byte>, c: Chunk, rest: seq<byte>, chunks: seq<Chunk>)
    requires ReadChunk(s) == Some((c, rest))
    requires ReadChunks(rest) == Some(chunks)
    ensures ReadChunks(s) == Some([c] + chunks)
  {
  }

  /**
   * create_png: packs every pixel into a word, then writes the file. It
   * fails exactly when a row's length differs from width, width or height
   * does not fit in 32 bits, or the compressed data is 2^32 bytes or more.
   */
  method CreatePng(width: int, height: int, pixels: seq<seq<Rgb>>, compress: seq<byte> -> seq<byte>)
    returns (r: Result<seq<byte>, PngError>)
    ensures r == WritePng(width, height, Packed(pixels), compress)
    ensures r.Ok? <==>
      && (forall i :: 0 <= i < |pixels| ==> |pixels[i]| == width)
      && InU32(width) && InU32(height)
      && InU32(|compress(RawData(width, Packed(pixels)).value)|)
  {
    var data := PackPixels(pixels);
    forall i | 0 <= i < |pixels|
      ensures data[i] == Packed(pixels)[i]
    {
    }
    assert data == Packed(pixels);
    r := WritePng(width, height, data, compress);
  }

  /** Decompressing the IDAT data of a created file gives back the packed pixels, row by row. */
  lemma CreatedImageRoundTrip(width: nat, height: int, pixels: seq<seq<Rgb>>, compress: seq<byte> -> seq<byte>,
                              decompress: seq<byte> -> seq<byte>)
    requires WritePng(width, height, Packed(pixels), compress).Ok?
    requires forall s :: decompress(compress(s)) == s
    ensures match DecodePng(WritePng(width, height, Packed(pixels), compress).value)
      case Some(chunks) => |chunks| == 3 && chunks[1].kind == IDAT &&
        ParseScanlines(width, decompress(chunks[1].data)) == Some(Packed(pixels))
      case None => false
  {
    PngRoundTrip(width, height, Packed(pixels), compress);
    RawDataRoundTrip(width, Packed(pixels));
  }
}
