/**
 * The integer pixel helpers of scripts/basic_image_generator.py: packing RGB
 * triples into 32-bit words, the hash-derived palette and the bitmap caption
 * stamped into the pixel grid.
 */
module Pixels {
  import opened Bytes

  /** An RGB triple; every producer in the generator keeps components in 0..255. */
  datatype Rgb = Rgb(r: byte, g: byte, b: byte)

  const White := Rgb(0xFF, 0xFF, 0xFF)

  // ---------------------------------------------------------------- packing

  /**
   * (r << 24) | (g << 16) | (b << 8) | 0xFF. The four fields occupy disjoint
   * bytes, so the shifts are multiplications and the ors are additions.
   */
  function Pack(p: Rgb): (w: u32)
    ensures Be32(w) == [p.r, p.g, p.b, 0xFF]
  {
    FromBe32RoundTrip([p.r, p.g, p.b, 0xFF]);
    (p.r as int) * 0x100_0000 + (p.g as int) * 0x1_0000 + (p.b as int) * 0x100 + 0xFF
  }

  /** Packing loses nothing: distinct pixels give distinct words. */
  lemma PackInjective(p: Rgb, q: Rgb)
    requires Pack(p) == Pack(q)
    ensures p == q
  {
    Be32Injective(Pack(p), Pack(q));
  }

  /**
   * The conversion loop of create_png: each row of triples becomes a row of
   * packed words, in order.
   */
  method PackPixels(pixels: seq<seq<Rgb>>) returns (data: seq<seq<u32>>)
    ensures |data| == |pixels|
    ensures forall i :: 0 <= i < |pixels| ==> |data[i]| == |pixels[i]|
    ensures forall i, j :: 0 <= i < |pixels| && 0 <= j < |pixels[i]| ==> data[i][j] == Pack(pixels[i][j])
  {
    data := [];
    var i := 0;
    while i < |pixels|
      invariant 0 <= i <= |pixels|
      invariant |data| == i
      invariant forall k :: 0 <= k < i ==> |data[k]| == |pixels[k]|
      invariant forall k, j :: 0 <= k < i && 0 <= j < |pixels[k]| ==> data[k][j] == Pack(pixels[k][j])
    {
      var row := pixels[i];
      var rowData: seq<u32> := [];
      var j := 0;
      while j < |row|
        invariant 0 <= j <= |row|
        invariant |rowData| == j
        invariant forall k :: 0 <= k < j ==> rowData[k] == Pack(row[k])
      {
        rowData := rowData + [Pack(row[j])];
        j := j + 1;
      }
      data := data + [rowData];
      i := i + 1;
    }
  }

  /** The packed form of a grid, for use in specifications. */
  function Packed(pixels: seq<seq<Rgb>>): (data: seq<seq<u32>>)
  {
    seq(|pixels|, i requires 0 <= i < |pixels| => seq(|pixels[i]|, j requires 0 <= j < |pixels[i]| => Pack(pixels[i][j])))
  }

  // ---------------------------------------------------------------- palette

  /**
   * The colour read from a hash value: r = (h & 0xFF0000) >> 16,
   * g = (h & 0xFF00) >> 8, b = h & 0xFF. Python's & works on the infinite
   * two's complement, which for a negative h is the floor division and
   * non-negative remainder written here.
   */
  function ColourOf(h: int): (c: Rgb)
    ensures (c.r as int) * 0x1_0000 + (c.g as int) * 0x100 + c.b as int == h % 0x100_0000
  {
    Low24Bits(h);
    Rgb((h / 0x1_0000) % 0x100, (h / 0x100) % 0x100, h % 0x100)
  }

  /** The three masked bytes of h, reassembled, are h's low 24 bits. */
  lemma Low24Bits(h: int)
    ensures ((h / 0x1_0000) % 0x100) * 0x1_0000 + ((h / 0x100) % 0x100) * 0x100 + h % 0x100 == h % 0x100_0000
  {
    var q := h / 0x100;
    assert h == q * 0x100 + h % 0x100;
    var q2 := q / 0x100;
    assert q == q2 * 0x100 + q % 0x100;
    assert h / 0x1_0000 == q2;
    var m := h % 0x100_0000;
    assert h == (h / 0x100_0000) * 0x100_0000 + m;
    assert q2 == (h / 0x100_0000) * 0x100 + q2 % 0x100;
  }

  /** str(n) for a non-negative n: its decimal digits. */
  function DecimalString(n: nat): (s: string)
    ensures |s| >= 1
    ensures forall k :: 0 <= k < |s| ==> '0' <= s[k] <= '9'
  {
    var digit := (0x30 + n % 10) as char;
    if n < 10 then [digit] else DecimalString(n / 10) + [digit]
  }

  /** int(s) for a string of decimal digits (the value of any other string is not used). */
  function DecimalValue(s: string): int
  {
    if s == [] then 0 else 10 * DecimalValue(s[..|s| - 1]) + (s[|s| - 1] as int - 0x30)
  }

  /** str(n) reads back as n, so distinct indices give distinct hash inputs. */
  lemma {:induction false} DecimalRoundTrip(n: nat)
    ensures DecimalValue(DecimalString(n)) == n
  {
    var s := DecimalString(n);
    if n >= 10 {
      DecimalRoundTrip(n / 10);
      assert s[..|s| - 1] == DecimalString(n / 10);
    }
  }

  /** The three palette colours, each drawn from hash(prompt + str(i)) alone. */
  function Palette(prompt: string, hash: string -> int): (colors: seq<Rgb>)
  {
    [ColourOf(hash(prompt + DecimalString(0))),
     ColourOf(hash(prompt + DecimalString(1))),
     ColourOf(hash(prompt + DecimalString(2)))]
  }

  /**
   * text_to_colors: one colour per character of prompt[:3], then colours
   * appended until there are three. Whatever the prompt's length, colour i
   * comes from hash(prompt + str(i)).
   */
  method TextToColors(prompt: string, hash: string -> int) returns (colors: seq<Rgb>)
    ensures |colors| == 3
    ensures forall i :: 0 <= i < 3 ==> colors[i] == ColourOf(hash(prompt + DecimalString(i)))
  {
    colors := [];
    var n := if |prompt| < 3 then |prompt| else 3;
    var i := 0;
    while i < n
      invariant 0 <= i <= n
      invariant |colors| == i
      invariant forall k :: 0 <= k < i ==> colors[k] == ColourOf(hash(prompt + DecimalString(k)))
    {
      colors := colors + [ColourOf(hash(prompt + DecimalString(i)))];
      i := i + 1;
    }
    while |colors| < 3
      invariant |colors| <= 3
      invariant forall k :: 0 <= k < |colors| ==> colors[k] == ColourOf(hash(prompt + DecimalString(k)))
      decreases 3 - |colors|
    {
      colors := colors + [ColourOf(hash(prompt + DecimalString(|colors|)))];
    }
  }

  // ---------------------------------------------------------------- caption

  const MaxCaption := 20
  /** Horizontal advance from one character cell to the next. */
  const Advance := 8
  const GlyphRows := 8
  const GlyphColumns := 6

  /** prompt[:20] */
  function Caption(prompt: string): (text: string)
    ensures |text| <= MaxCaption && |text| <= |prompt|
    ensures text == prompt[..|text|]
    ensures |text| == MaxCaption || text == prompt
  {
    if |prompt| <= MaxCaption then prompt else prompt[..MaxCaption]
  }

  /** start_y = height // 2 - 10 */
  function CaptionTop(height: int): (y: int)
    ensures 2 * (y + 10) <= height < 2 * (y + 10) + 2
  {
    height / 2 - 10
  }

  /** start_x = max(0, (width - len(text) * 8) // 2), with Python's floor division. */
  function CaptionLeft(width: int, count: nat): (x: int)
    ensures x >= 0
  {
    var centred := (width - count * Advance) / 2;
    if centred < 0 then 0 else centred
  }

  /** ord(char) % 16 */
  function GlyphCode(c: char): (code: nat)
    ensures code < 16 && (c as int - code) % 16 == 0
  {
    (c as int) % 16
  }

  /**
   * (code >> (px % 4)) & 1: whether column px of a glyph is inked. A shift
   * by less than four only reaches the low four bits of code.
   */
  predicate ColumnInk(code: nat, px: nat)
    ensures ColumnInk(code, px) <==> ((code % 16) as bv4 >> (px % 4)) & 1 == 1
  {
    var shift := px % 4;
    var divisor := if shift == 0 then 1 else if shift == 1 then 2 else if shift == 2 then 4 else 8;
    NibbleBit(code % 16, shift);
    (code % 16 / divisor) % 2 == 1
  }

  /** For a nibble, integer division by 2^shift and the bit-vector shift agree. */
  lemma NibbleBit(c: nat, shift: nat)
    requires c < 16 && shift < 4
    ensures var divisor := if shift == 0 then 1 else if shift == 1 then 2 else if shift == 2 then 4 else 8;
      (c / divisor) % 2 == 1 <==> ((c as bv4) >> shift) & 1 == 1
  {
    var n: bv4 := c as bv4;
    assert n as int == c;
  }

  /**
   * The cells one glyph paints: rows top..top+7, columns left..left+5 whose
   * column bit is set, inside the width x height grid.
   */
  predicate GlyphCell(left: int, top: int, code: nat, width: int, height: int, y: int, x: int) {
    && 0 <= y < height && 0 <= x < width
    && top <= y < top + GlyphRows
    && left <= x < left + GlyphColumns
    && ColumnInk(code, x - left)
  }

  /** Character i of the caption is drawn only when its cell and the caption band fit. */
  predicate Drawn(text: string, width: int, height: int, i: nat)
    ensures Drawn(text, width, height, i) ==>
      var charX := CaptionLeft(width, |text|) + i * Advance;
      0 <= charX && charX + GlyphColumns < width && CaptionTop(height) + GlyphRows < height
  {
    var charX := CaptionLeft(width, |text|) + i * Advance;
    charX + Advance < width && CaptionTop(height) + 16 < height
  }

  /**
   * Whether one of the first `count` caption characters paints cell (y, x).
   * Glyphs are 6 columns wide in 8-column cells, so the cell that column x
   * falls in names the only character that can paint it.
   */
  predicate Inked(text: string, width: int, height: int, count: nat, y: int, x: int) {
    var left := CaptionLeft(width, |text|);
    x >= left &&
    var i := (x - left) / Advance;
    i < count && i < |text| && Drawn(text, width, height, i) &&
    GlyphCell(left + i * Advance, CaptionTop(height), GlyphCode(text[i]), width, height, y, x)
  }

  /** The cell-based definition agrees with "some drawn character paints it". */
  lemma InkedByCharacter(text: string, width: int, height: int, count: nat, y: int, x: int)
    ensures Inked(text, width, height, count, y, x) <==>
      exists i :: 0 <= i < count && i < |text| && Drawn(text, width, height, i) &&
        GlyphCell(CaptionLeft(width, |text|) + i * Advance, CaptionTop(height), GlyphCode(text[i]), width, height, y, x)
  {
    var left := CaptionLeft(width, |text|);
    if exists i :: 0 <= i < count && i < |text| && Drawn(text, width, height, i) &&
        GlyphCell(left + i * Advance, CaptionTop(height), GlyphCode(text[i]), width, height, y, x)
    {
      var i :| 0 <= i < count && i < |text| && Drawn(text, width, height, i) &&
        GlyphCell(left + i * Advance, CaptionTop(height), GlyphCode(text[i]), width, height, y, x);
      assert (x - left) / Advance == i;
    }
  }

  /** What the caption does to the first count + 1 characters, given the first count. */
  lemma InkedNext(text: string, width: int, height: int, count: nat, y: int, x: int)
    requires count < |text|
    ensures Inked(text, width, height, count + 1, y, x) <==>
      Inked(text, width, height, count, y, x) ||
      (Drawn(text, width, height, count) &&
       GlyphCell(CaptionLeft(width, |text|) + count * Advance, CaptionTop(height), GlyphCode(text[count]), width, height, y, x))
  {
    var left := CaptionLeft(width, |text|);
    if GlyphCell(left + count * Advance, CaptionTop(height), GlyphCode(text[count]), width, height, y, x) {
      assert (x - left) / Advance == count;
    }
  }

  /**
   * The two inner loops of add_text_pattern for one character: rows py in
   * 0..7, columns px in 0..5, painting white where the column bit is set and
   * the cell is inside the grid.
   */
  method StampGlyph(pixels: array2<Rgb>, width: int, height: int, charX: int, startY: int, code: nat)
    requires pixels.Length0 == height && pixels.Length1 == width
    modifies pixels
    ensures forall y, x :: 0 <= y < height && 0 <= x < width ==>
      pixels[y, x] == if GlyphCell(charX, startY, code, width, height, y, x) then White else old(pixels[y, x])
  {
    var py := 0;
    while py < GlyphRows
      invariant 0 <= py <= GlyphRows
      invariant forall y, x :: 0 <= y < height && 0 <= x < width ==>
        pixels[y, x] == if GlyphCell(charX, startY, code, width, height, y, x) && y < startY + py then White else old(pixels[y, x])
    {
      var px := 0;
      while px < GlyphColumns
        invariant 0 <= px <= GlyphColumns
        invariant forall y, x :: 0 <= y < height && 0 <= x < width ==>
          pixels[y, x] ==
            if GlyphCell(charX, startY, code, width, height, y, x) && (y < startY + py || (y == startY + py && x < charX + px))
            then White else old(pixels[y, x])
      {
        if ColumnInk(code, px) {
          var yPos := startY + py;
          var xPos := charX + px;
          if 0 <= yPos < height && 0 <= xPos < width {
            pixels[yPos, xPos] := White;
          }
        }
        px := px + 1;
      }
      py := py + 1;
    }
  }

  /**
   * add_text_pattern: stamps a glyph for each of the first 20 characters of
   * the prompt, centred horizontally, in the band starting at height // 2 - 10.
   * Every cell ends white exactly where a drawn glyph inks it and keeps its
   * colour elsewhere.
   */
  method AddTextPattern(pixels: array2<Rgb>, width: int, height: int, prompt: string)
    requires pixels.Length0 == height && pixels.Length1 == width
    modifies pixels
    ensures forall y, x :: 0 <= y < height && 0 <= x < width ==>
      pixels[y, x] == if Inked(Caption(prompt), width, height, |Caption(prompt)|, y, x) then White else old(pixels[y, x])
  {
    var text := Caption(prompt);
    var startY := CaptionTop(height);
    var startX := CaptionLeft(width, |text|);
    var i := 0;
    while i < |text|
      invariant 0 <= i <= |text|
      invariant forall y, x :: 0 <= y < height && 0 <= x < width ==>
        pixels[y, x] == if Inked(text, width, height, i, y, x) then White else old(pixels[y, x])
    {
      var charX := startX + i * Advance;
      if charX + Advance < width && startY + 16 < height {
        StampGlyph(pixels, width, height, charX, startY, GlyphCode(text[i]));
      }
      forall y, x | 0 <= y < height && 0 <= x < width
        ensures pixels[y, x] == if Inked(text, width, height, i + 1, y, x) then White else old(pixels[y, x])
      {
        InkedNext(text, width, height, i, y, x);
      }
      i := i + 1;
    }
  }

  /**
   * Only the caption band is touched: an inked cell lies in rows
   * start_y..start_y+7, within the cells of the first min(20, |prompt|)
   * characters, and only when the band fits the guard start_y + 16 < height.
   */
  lemma CaptionFootprint(prompt: string, width: int, height: int, y: int, x: int)
    requires Inked(Caption(prompt), width, height, |Caption(prompt)|, y, x)
    ensures CaptionTop(height) <= y < CaptionTop(height) + GlyphRows
    ensures 0 <= y < height && 0 <= x < width
    ensures CaptionTop(height) + 16 < height
    ensures CaptionLeft(width, |Caption(prompt)|) <= x < CaptionLeft(width, |Caption(prompt)|) + Advance * |Caption(prompt)|
  {
    var text := Caption(prompt);
    var left := CaptionLeft(width, |text|);
    var i := (x - left) / Advance;
    assert x < left + i * Advance + GlyphColumns;
  }

  /**
   * generate_image: the palette from the prompt, the gradient drawn from it
   * (its floating-point colour mixing is the parameter `gradient`), then the
   * caption stamped on top.
   */
  method GenerateImage(prompt: string, width: nat, height: nat, hash: string -> int,
                       gradient: (seq<Rgb>, nat, nat) -> Rgb)
    returns (pixels: array2<Rgb>)
    ensures fresh(pixels) && pixels.Length0 == height && pixels.Length1 == width
    ensures forall y, x :: 0 <= y < height && 0 <= x < width ==>
      pixels[y, x] ==
        if Inked(Caption(prompt), width, height, |Caption(prompt)|, y, x) then White
        else gradient(Palette(prompt, hash), y, x)
  {
    var colors := TextToColors(prompt, hash);
    assert colors == Palette(prompt, hash);
    pixels := new Rgb[height, width]((y: nat, x: nat) => gradient(colors, y, x));
    AddTextPattern(pixels, width, height, prompt);
  }
}
