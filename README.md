# Image generation helpers: PNG writer, pixel helpers, placeholder layout

This project models, in Dafny, the discrete core of an image-generation back
end that answers AUTOMATIC1111-style `/sdapi/v1/txt2img` requests.

- **`scripts/basic_image_generator.py`.** A dependency-free image generator.
  - `create_png` serialises a pixel grid as a PNG datastream, following the
    PNG Specification, Second Edition (ISO/IEC 15948). It writes the 8-byte
    signature (section 5.2 of ISO/IEC 15948), then chunks laid out as length,
    type, data, CRC (section 5.3 of ISO/IEC 15948). Those chunks are an IHDR
    header (section 11.2.2 of ISO/IEC 15948), one IDAT of zlib-compressed
    scanlines (each starting with filter type 0, section 9 of ISO/IEC 15948)
    and an empty IEND.
  - Pixels are packed into 32-bit words `r<<24 | g<<16 | b<<8 | 0xFF`.
  - `text_to_colors` derives a three-colour palette from Python's `hash()`.
  - `add_text_pattern` stamps a bitmap caption into the grid in place.
  - `generate_image` composes these steps.
- **`real_sd_server.py`.** The FastAPI server.
  - `txt2img` answers from the Stable Diffusion pipeline when one is loaded.
    Otherwise, or when the pipeline raises, it answers with an "enhanced
    placeholder".
  - The placeholder wraps the prompt greedily: a line of two or more words
    has at most 34 characters, and a longer word gets a line of its own. It
    draws at most four lines and seeds its colours with the sum of the
    prompt's code points modulo 1000.
  - Both paths answer with one image and a `parameters` record that echoes
    the request.

Modules:

| file | module | models |
|---|---|---|
| `wrappers.dfy` | `Wrappers` | `Option` and `Result` |
| `bytes.dfy` | `Bytes` | bytes, 32-bit words, `struct.pack("!I")` |
| `crc32.dfy` | `Crc32` | `zlib.crc32`: reflected CRC-32, polynomial 0xEDB88320 |
| `pixels.dfy` | `Pixels` | packing, palette, caption stamping, `generate_image` |
| `png.dfy` | `Png` | `write_chunk`, `write_png`, `create_png`, and a reader for the same framing |
| `wrap.dfy` | `WordWrap` | `str.split()`, the greedy wrap |
| `sd_server.dfy` | `SdServer` | the request, the responses, the placeholder's seed, drawn lines and layout, `txt2img`'s dispatch |

Modelling choices:

- **CRC-32.** Defined bit by bit, as zlib computes it: complement, eight
  shift-and-xor steps per byte, complement. The incremental identity
  `crc32(data, crc32(type)) == crc32(type + data)`, which `write_chunk`
  relies on, is proved from that definition.
- **Parameters instead of foreign code.**
  - `compress` stands for zlib compression.
  - `hash` stands for Python's `hash()`.
  - `gradient` stands for `generate_gradient`.
  - `generate` and `render` stand for the diffusion pipeline and for PIL
    drawing plus PNG/base64 encoding. They return `None` where the original
    raises.
- **Errors.** Every `struct.error` the writer can raise becomes the single
  `Png.PngError.StructError`. The three causes are a row whose length
  differs from `width`, a width or height outside 0..2^32-1, and a chunk of
  2^32 bytes or more.
- **Colour type quirk.** The header declares colour type 2 (truecolour:
  three bytes a pixel at depth 8). Every pixel is nevertheless written as
  four bytes, r, g, b, 255. The model writes exactly that, and
  `Png.ScanlinesDisagreeWithHeader` shows the raw data is then longer than
  the declared geometry allows.
- **`txt2img` retry.** Without a pipeline, the placeholder runs inside
  `txt2img`'s `try`, and its `HTTPException` is caught by the same
  `except Exception`, which runs the placeholder a second time. When the
  pipeline raises, the placeholder runs once, from the `except` branch, and
  its `HTTPException` escapes. `SdServer.Server.Txt2Img` makes the second
  attempt only in the first case. Rendering is a function of its input, so
  the second attempt fails the same way and the HTTP 500 is what escapes.

## Model

| member | source | states |
|---|---|---|
| Bytes.PackU32 | scripts/basic_image_generator.py:17-20 | `struct.pack("!I", n)` succeeds exactly when n fits in 32 unsigned bits, and then gives 4 bytes that read back as n |
| Bytes.Be32RoundTrip | scripts/basic_image_generator.py:17-20 | the 4 big-endian bytes of a word read back as that word |
| Bytes.FromBe32RoundTrip | scripts/basic_image_generator.py:17-20 | any 4 bytes are the big-endian encoding of the word they denote |
| Bytes.Be32Injective | scripts/basic_image_generator.py:17-20 | distinct words have distinct encodings |
| Crc32.Crc | scripts/basic_image_generator.py:16 | `zlib.crc32(b"", v)` leaves the running value v unchanged |
| Crc32.Checksum | scripts/basic_image_generator.py:16 | the CRC of no bytes is 0 |
| Crc32.FoldAppend | scripts/basic_image_generator.py:16 | feeding a + b to the CRC register is feeding a, then b |
| Crc32.Incremental | scripts/basic_image_generator.py:16 | `crc32(data, crc32(type))` equals `crc32(type + data)`, so the chunk CRC covers type and data |
| Crc32.Continue | scripts/basic_image_generator.py:16 | continuing a CRC from value v over b is the CRC from v over a + b, given the CRC over a |
| Pixels.Pack | scripts/basic_image_generator.py:43 | a packed pixel is written big-endian as the bytes r, g, b, 255 |
| Pixels.PackInjective | scripts/basic_image_generator.py:43 | packing loses no component: equal words come from equal pixels |
| Pixels.PackPixels | scripts/basic_image_generator.py:38-45 | the conversion loop keeps the grid's shape and packs pixel (i, j) into word (i, j) |
| Pixels.ColourOf | scripts/basic_image_generator.py:54-56 | the masked components, reassembled, are the low 24 bits of the hash, negative hashes included |
| Pixels.DecimalString | scripts/basic_image_generator.py:53 | `str(i)` of a natural number is a nonempty string of decimal digits |
| Pixels.DecimalRoundTrip | scripts/basic_image_generator.py:53 | `str(i)` reads back as i, so colour i hashes its own suffix |
| Pixels.TextToColors | scripts/basic_image_generator.py:49-67 | exactly 3 colours, colour i a function of `hash(prompt + str(i))` alone, whatever the prompt's length |
| Pixels.Caption | scripts/basic_image_generator.py:115 | `prompt[:20]` is a prefix of at most 20 characters, and is the whole prompt when shorter |
| Pixels.CaptionTop | scripts/basic_image_generator.py:118 | `height // 2 - 10` with floor division: 2 x (start_y + 10) is height or height - 1 |
| Pixels.CaptionLeft | scripts/basic_image_generator.py:119 | the caption's left edge is never negative |
| Pixels.Drawn | scripts/basic_image_generator.py:122-123 | a character passes the guard only if its six glyph columns lie inside the grid and its eight rows end above the bottom edge, so only the check against the top edge can still reject a cell |
| Pixels.GlyphCode | scripts/basic_image_generator.py:125 | the glyph code is below 16 and congruent to the code point modulo 16 |
| Pixels.ColumnInk | scripts/basic_image_generator.py:127-128 | column px is inked exactly when bit px % 4 of the glyph code is set, as the shift and mask compute it |
| Pixels.InkedByCharacter | scripts/basic_image_generator.py:121-133 | a cell is inked exactly when some drawn caption character's glyph covers it |
| Pixels.InkedNext | scripts/basic_image_generator.py:121-133 | drawing one more character adds exactly that character's glyph cells |
| Pixels.StampGlyph | scripts/basic_image_generator.py:126-133 | the glyph loops make white exactly the in-bounds cells whose column bit is set in the 8x6 cell, and nothing else changes |
| Pixels.AddTextPattern | scripts/basic_image_generator.py:112-135 | in place: a cell is white where a drawn caption glyph inks it, and every other cell keeps its colour |
| Pixels.CaptionFootprint | scripts/basic_image_generator.py:118-131 | inked cells lie in the grid, in rows start_y..start_y+7 of a band that passed the `start_y + 16 < height` guard, and within the caption's columns |
| Pixels.GenerateImage | scripts/basic_image_generator.py:137-149 | a fresh width x height grid: white where the caption inks it, the gradient of the prompt's palette elsewhere |
| Png.WriteChunk | scripts/basic_image_generator.py:15-20 | fails exactly when `struct.pack` of the length fails, i.e. the data has 2^32 bytes or more; otherwise gives 12 + len bytes: big-endian length, type, data, CRC-32 of type and data |
| Png.ReadFramedChunk | scripts/basic_image_generator.py:15-20 | a framed chunk reads back as its type and data, leaving what follows |
| Png.IhdrPayload | scripts/basic_image_generator.py:33 | fails exactly when width or height is outside 32 bits; otherwise 13 bytes ending 8, 2, 0, 0, 0 |
| Png.HeaderRoundTrip | scripts/basic_image_generator.py:33 | the IHDR data reads back as the given width and height, depth 8, colour type 2 and three zeros |
| Png.PackWords | scripts/basic_image_generator.py:24 | a row of n words packs to 4n bytes |
| Png.Scanline | scripts/basic_image_generator.py:24 | a scanline is the filter byte 0 followed by the row's packed words, 1 + 4n bytes in all |
| Png.RawData | scripts/basic_image_generator.py:23-26 | fails exactly when some row's length differs from width; otherwise rows x (1 + 4 x width) bytes |
| Png.ParseWordsRoundTrip | scripts/basic_image_generator.py:24 | a row's packed words read back as the row |
| Png.RawDataRoundTrip | scripts/basic_image_generator.py:23-26 | splitting the raw data into filter-0 scanlines gives back every row |
| Png.WordAt | scripts/basic_image_generator.py:24 | bytes 4j..4j+3 of a packed row are word j |
| Png.PixelInScanline | scripts/basic_image_generator.py:24-43 | in a scanline, bytes 1+4j..4+4j are pixel j as r, g, b, 255 |
| Png.ScanlinesDisagreeWithHeader | scripts/basic_image_generator.py:24-33 | a non-empty image's raw data is height x (1 + 4 x width) bytes, more than the height x (1 + 3 x width) its colour type 2 header declares |
| Png.WritePng | scripts/basic_image_generator.py:22-35 | fails exactly on a bad row length, an out-of-range size or oversized compressed data; otherwise 57 + len(compressed) bytes starting with the signature |
| Png.Assemble | scripts/basic_image_generator.py:32-35 | the signature, then the three chunks in order |
| Png.WritePngAssembles | scripts/basic_image_generator.py:32-35 | a written file is the signature, the IHDR chunk, the IDAT chunk of the compressed raw data and the empty IEND chunk |
| Png.PngRoundTrip | scripts/basic_image_generator.py:15-35 | reading the written file recovers exactly three chunks: IHDR with its data, IDAT with the compressed bytes, an empty IEND |
| Png.DecodeFramed | scripts/basic_image_generator.py:32-35 | three framed chunks behind the signature decode as those chunks |
| Png.DecodeAssembled | scripts/basic_image_generator.py:32-35 | three chunks that read one after another decode as a datastream of those three |
| Png.ReadChunksStep | scripts/basic_image_generator.py:32-35 | the chunk sequence is the first chunk followed by the chunks after it |
| Png.IendCheckValue | scripts/basic_image_generator.py:35 | the CRC of the type "IEND" is AE 42 60 82 |
| Png.EmptyChunk | scripts/basic_image_generator.py:15-20 | a framed chunk without data is four zero bytes, its type and the CRC of its type |
| Png.IendFramed | scripts/basic_image_generator.py:35 | a framed empty IEND chunk is the 12 bytes 00 00 00 00 "IEND" AE 42 60 82 |
| Png.IendChunk | scripts/basic_image_generator.py:35 | `write_chunk('IEND', b'')` succeeds and gives 00 00 00 00 "IEND" AE 42 60 82 |
| Png.AssembleEndsWith | scripts/basic_image_generator.py:32-35 | an assembled file ends with its trailer chunk |
| Png.WritePngTrailer | scripts/basic_image_generator.py:32-35 | every written file ends with the 12 bytes 00 00 00 00 "IEND" AE 42 60 82 |
| Png.CreatePng | scripts/basic_image_generator.py:13-47 | the file written from the packed pixels; fails exactly on a row of the wrong length, an out-of-range size or oversized compressed data |
| Png.CreatedImageRoundTrip | scripts/basic_image_generator.py:13-47 | with a decompressor that inverts the compressor, the IDAT of a created file gives back the packed pixels row by row |
| WordWrap.IsSpace | real_sd_server.py:169 | the whitespace `str.split()` separates on; on ASCII it is exactly space, tab, LF, CR, VT, FF and the four separators 0x1C-0x1F |
| WordWrap.WordLen | real_sd_server.py:169 | the length of the leading run of non-whitespace characters |
| WordWrap.Words | real_sd_server.py:169 | `str.split()` yields nonempty words without whitespace |
| WordWrap.WordLenOfWord | real_sd_server.py:169 | a word followed by whitespace or by the end is read whole |
| WordWrap.WordsCons | real_sd_server.py:169 | a leading word followed by whitespace or by the end is the first element of the split |
| WordWrap.WordsAroundSpace | real_sd_server.py:169 | splitting at a whitespace character splits the word list there |
| WordWrap.WordsOfWord | real_sd_server.py:169 | a single word splits to itself |
| WordWrap.WordsOfJoin | real_sd_server.py:173 | words joined by single spaces split back into the same words |
| WordWrap.NoWordsIffBlank | real_sd_server.py:169 | a prompt has no words exactly when it is empty or all whitespace |
| WordWrap.FlattenSnoc | real_sd_server.py:175 | appending a line appends its words |
| WordWrap.ExtendLine | real_sd_server.py:172-173 | a word appended to a nonempty line under the limit adds that word, and the line stays its words joined within 34 characters |
| WordWrap.Place | real_sd_server.py:171-176 | one iteration keeps the finished lines and adds at most one, exactly when the word does not fit; the word ends current_line, which stays under 35 characters unless it is that word alone |
| WordWrap.PlaceAll | real_sd_server.py:170-176 | after n words there are at most n finished lines, and current_line is under 35 characters or is the last word |
| WordWrap.Wrap | real_sd_server.py:168-178 | at most one line per word plus the empty first line a long first word causes; no words give no lines |
| WordWrap.PlaceKeepsInv | real_sd_server.py:171-176 | one loop iteration keeps the wrap invariant |
| WordWrap.ExtendKeepsInv | real_sd_server.py:172-173 | the branch that extends current_line keeps the invariant |
| WordWrap.BreakKeepsInv | real_sd_server.py:174-176 | the branch that finishes current_line keeps the invariant |
| WordWrap.PlaceAllInv | real_sd_server.py:168-176 | the invariant holds after every prefix of the words |
| WordWrap.PlaceKeepsGreedy | real_sd_server.py:171-176 | one iteration keeps every finished line full: the next line's first word would have taken it to 35 characters or more |
| WordWrap.PlaceAllGreedy | real_sd_server.py:170-176 | the loop state is greedy after every prefix of the words |
| WordWrap.FinishGreedy | real_sd_server.py:177-178 | appending current_line keeps each line full with respect to the next |
| WordWrap.WrapIsGreedy | real_sd_server.py:168-178 | each line is followed by a line whose first word would have taken it to 35 characters or more |
| WordWrap.WrapShape | real_sd_server.py:168-178 | the finished wrap reads back as the words, its lines are their words joined, only the first line can be empty, and it is empty only for no words |
| WordWrap.FinishKeeps | real_sd_server.py:177-178 | appending the nonempty current_line keeps the properties the invariant states |
| WordWrap.WrapProperties | real_sd_server.py:168-178 | the lines read back as the words in order; each line is its words joined by single spaces; a line of two or more words has at most 34 characters; only the first line can be empty, exactly when the first word has 34 or more characters; no lines exactly when no words; greedy: each line is followed by one whose first word would have taken it to 35 characters or more |
| WordWrap.WrapPromptProperties | real_sd_server.py:168-178 | the wrap of a prompt reads back as `prompt.split()`, and is empty exactly for an empty or whitespace-only prompt |
| WordWrap.WrapPrompt | real_sd_server.py:168-178 | the wrap loop computes the wrap of `prompt.split()` |
| SdServer.CodeSum | real_sd_server.py:144 | the code-point sum is at least every code point in it and at most 0x10FFFF per character |
| SdServer.Seed | real_sd_server.py:144 | the seed lies in 0..999 |
| SdServer.CodeSumAppend | real_sd_server.py:144 | the code-point sum of a + b is the sum of the two sums |
| SdServer.SeedOfConcat | real_sd_server.py:144 | the seed of a + b depends only on the seeds of a and b, and equals the seed of b + a |
| SdServer.DrawnLines | real_sd_server.py:180-182 | at most 4 lines are drawn, the first min(4, n) in order, at x 20, starting at y = height // 3 and 30 pixels apart |
| SdServer.SdResponse | real_sd_server.py:111-129 | one image, the request's parameters echoed, and an info record with the same five values, sampler "Euler" and model "stable-diffusion-v1-5" |
| SdServer.PlaceholderResponse | real_sd_server.py:195-209 | one image, the request's parameters echoed, and an info record with the prompt and model "enhanced-placeholder" |
| SdServer.SizeFooter | real_sd_server.py:185 | the footer is the fixed prefix followed by text that splits at its only "x" into the digits of width and height, which read back as those numbers |
| SdServer.SizeReadsBack | real_sd_server.py:185 | after any prefix, digits, an "x" and digits split back at the "x" into the two values |
| SdServer.PlaceholderLayout | real_sd_server.py:144-188 | the layout has the request's width and height and the prompt's seed (below 1000); the drawn lines come first, then the size footer at height - 60 and the connect footer at height - 30 |
| SdServer.Placeholder | real_sd_server.py:136-213 | the placeholder answers exactly when the size is non-negative and rendering succeeds, with the rendered image, the echoed parameters and model "enhanced-placeholder"; otherwise HTTP 500 "Failed to generate image" |
| SdServer.Server.constructor | real_sd_server.py:20 | a server starts without a pipeline |
| SdServer.Server.Txt2Img | real_sd_server.py:80-134 | a success holds one image and echoes the request's parameters; a failure is the placeholder's HTTP 500 |
| SdServer.Txt2ImgDispatch | real_sd_server.py:83-134 | with a pipeline that succeeds the answer is its image with sampler "Euler"; without a pipeline, or when it fails, the answer is the placeholder's |
| SdServer.Txt2ImgReply | real_sd_server.py:83-213 | every success holds one image and echoes prompt, width, height, steps and cfg_scale; the only error is HTTP 500, exactly when the pipeline is missing or fails and the placeholder fails |
| SdServer.DefaultRequest | real_sd_server.py:22-27 | a request giving only the prompt has width 512, height 512, 20 steps and cfg_scale 7.5 |
| SdServer.DefaultsEchoed | real_sd_server.py:22-27 | a request giving only the prompt is answered with width 512, height 512, 20 steps and cfg_scale 7.5 |

## Left out

- Stable Diffusion pipeline loading and inference (`load_pipeline`, the startup hook, `torch`/`diffusers`): these are foreign calls. The model takes a loaded pipeline as the field `SdServer.Server.pipeline` and its inference as the parameter `generate`. Note that `load_pipeline` can leave a non-`None` pipeline behind when `.to(device)` raises; that is not modelled.
- The `/sdapi/v1/progress` and `/sdapi/v1/sd-models` routes, FastAPI request validation and uvicorn: HTTP I/O that only returns constants.
- PIL drawing, font loading, the placeholder's gradient, PNG saving and base64 encoding: library calls, abstracted as `render`, which sees the layout (size, seed, text and positions).
- `random.seed`/`randint`: the placeholder's two colours are not modelled beyond the seed that picks them.
- `json.dumps` of the `info` record: `info` is kept as a structured `SdServer.Info` value.
- `generate_gradient`: floating-point interpolation and `math.sin`, abstracted as the parameter `gradient`, whose result components are bytes.
- zlib compression: the parameter `compress`. The model does not say what compressed bytes look like.
- Python's `hash()`: randomised per process, so it is the parameter `hash`.
- `main()` in `scripts/basic_image_generator.py`: argument and JSON option parsing, file writes and stdout output are I/O.
- scripts/simple_image_generator.py is not part of this model. It is HLS colour conversion, float gradients and PIL drawing.
- Png.CreatePng: pixel components outside 0..255 are not modelled. Components are bytes because every producer in the generator (the clamped gradient, the white caption) stays in range. The original would instead shift larger values into neighbouring fields or raise.
- Pixels.AddTextPattern: requires the grid to be exactly width x height, as `generate_image` always supplies. With a list-of-lists grid of another shape the original may write into rows it was not meant to, or raise `IndexError`.
- Pixels.GenerateImage: takes width and height as natural numbers. Negative sizes give an empty grid in the original.
- SdServer.Placeholder: a zero-sized image is not given special treatment. Whether PIL can save it is left to `render`.
- Strings are sequences of Unicode scalar values. A Python `str` can also hold lone surrogates (U+D800..U+DFFF), which a Dafny `char` cannot. Such prompts are not modelled; `len`, `ord` and `split` differ only on them.
