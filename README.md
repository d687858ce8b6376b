# Parity steganography encoder, modelled in Dafny

This project models the forward encoder in `steganography.c`. The encoder hides a payload in a
synthetic greyscale image. The payload's bytes are expanded into ASCII `'0'`/`'1'` symbols,
most significant bit first. Each symbol becomes one pixel intensity, drawn at random and
nudged so that its parity carries the bit: even for `'0'`, odd for `'1'`. The intensities are
laid out in a near-square raster, padded with 0, and written as a binary greymap (Netpbm PGM,
magic `P5`).

Modules, one per stage:

- `Bytes` (bytes.dfy): the octet type, `Option`, and the right shift `>>` as repeated halving.
- `BitPacker` (bit_packer.dfy): `charToBinary` and `stringToBinary` as methods that write a
  caller's `array<char>` in place. They are proved against `ByteSymbols` and `Pack`. `Unpack`
  is their inverse.
- `ParityEncoder` (parity_encoder.dfy): `binaryToPixels` as a method that writes an
  `array<int>`. The raw `rand()` results are a parameter `draws`, and call i uses `draws[i]`.
  It is proved against `Encode`. `ParityDecode` reads parities back.
- `RasterLayout` (raster_layout.dfy): the width and height as integer ceiling square root and
  ceiling division, the clamp, and the padded row-major body.
- `PgmWriter` (pgm_writer.dfy): `%d`, the header, and a reader of that header (its partner).
  It also holds the output file as a class (open, write, close, with failures) and
  `pixelsToImage` as a method over that file. The body loop of `pixelsToImage`
  (steganography.c:69-92) is its own method, `WriteCells`, called at that point.
- `Steganography` (steganography.dfy): the chain of stages, a reader that extracts the payload
  from a file, and the proof that extraction inverts encoding for every payload and every
  sequence of draws.

## Model

| member | source | states |
|---|---|---|
| `BitPacker.CharToBinary` | steganography.c:7-13 | writes exactly `out[offset .. offset+8)`, symbol k being bit 7-k of the byte; every other cell keeps its value |
| `BitPacker.ByteSymbols` | steganography.c:9-12 | a byte gives exactly eight symbols, each `'0'` or `'1'`; symbol k is `'1'` exactly when bit 7-k of the byte is set |
| `BitPacker.ByteSymbolsPrefix` | steganography.c:9-12 | the first k symbols of a byte, read as a binary number, equal the byte shifted right by 8-k, so the symbols come most significant bit first |
| `BitPacker.ByteSymbolsRoundTrip` | steganography.c:7-13 | a byte's eight symbols are all `'0'`/`'1'` and read back, most significant first, to the byte itself |
| `BitPacker.LetterA` | steganography.c:7-13 | byte 0x41 (`'A'`) expands to `01000001` |
| `BitPacker.Pack` | steganography.c:16-22 | a payload of n bytes expands to exactly 8n symbols |
| `BitPacker.PackAt` | steganography.c:18-21 | symbol 8i+k of the expansion is symbol k of byte i |
| `BitPacker.PackIsBinary` | steganography.c:16-22 | the expansion holds only `'0'` and `'1'` |
| `BitPacker.PackRoundTrip` | steganography.c:16-22 | unpacking the expansion, eight symbols per byte, gives the payload back |
| `BitPacker.StringToBinary` | steganography.c:16-22 | fills exactly `binary[0 .. 8*size)` with the expansion of `text[0 .. size)` and leaves every later cell unchanged |
| `ParityEncoder.Candidate` | steganography.c:31 | `1 + r % 254` lies in [1, 254] for every raw draw r |
| `ParityEncoder.PixelFor` | steganography.c:31-43 | the intensity is the candidate or the candidate + 1; it lies in [1, 255]; it is even exactly when the symbol is `'0'` |
| `ParityEncoder.Encode` | steganography.c:28-44 | one intensity per symbol; every intensity lies in [1, 255] (never 0); intensity i is even iff symbol i is `'0'` |
| `ParityEncoder.EncodeRoundTrip` | steganography.c:33-42 | for every sequence of draws, reading the parities of the encoded intensities gives back any `'0'`/`'1'` symbol sequence exactly |
| `ParityEncoder.BinaryToPixels` | steganography.c:26-45 | writes exactly `pixelValues[0 .. totalBits)`, value i being the encoding of symbol i under draw i; later cells are unchanged |
| `RasterLayout.Width` | steganography.c:54 | for n > 0 the width is at least 1; width*width >= n and (width-1)*(width-1) < n, so it is ceil(sqrt n) |
| `RasterLayout.Height` | steganography.c:55 | for n > 0 the height is at least 1; height*width >= n and (height-1)*width < n, so it is ceil(n / width) |
| `RasterLayout.CeilSqrt` | steganography.c:54 | the result w satisfies w*w >= n, and (w-1)*(w-1) < n when w > 0 |
| `RasterLayout.CeilDiv` | steganography.c:55 | the result q satisfies q*d >= n, and (q-1)*d < n when q > 0 |
| `RasterLayout.Dimensions` | steganography.c:54-55 | for n > 0: width and height are at least 1; width is ceil(sqrt n); width*height >= n > (height-1)*width; fewer than width cells are padding |
| `RasterLayout.WidthLeast` | steganography.c:54 | no v with v*v >= n is smaller than the width |
| `RasterLayout.HeightLeast` | steganography.c:55 | no h with h*width >= n is smaller than the height |
| `RasterLayout.NearSquare` | steganography.c:54-55 | the height equals the width or is one less |
| `RasterLayout.TenPixels` | steganography.c:54-55 | 10 intensities give a 4 by 3 raster |
| `RasterLayout.Clamp` | steganography.c:75-80 | values in [0, 255] are kept; negative values become 0; values above 255 become 255 |
| `RasterLayout.Cell` | steganography.c:72-85 | the byte is 0 exactly when the cell is padding or its intensity is <= 0; an intensity in [0, 255] is written unchanged |
| `RasterLayout.Body` | steganography.c:70-85 | exactly `cells` bytes; byte i is intensity i clamped while there is an intensity, and 0 after the last one |
| `RasterLayout.Layout` | steganography.c:69-92 | the raster has width*height >= n cells; cell i is intensity i clamped for i < n and 0 for n <= i < width*height |
| `RasterLayout.BodyIsRowMajor` | steganography.c:69-92 | the body is the grid of rows (row r holds cells r*w .. r*w+w) laid end to end, top row first |
| `PgmWriter.Decimal` | steganography.c:62 | `%d` of a non-negative number is a non-empty string of ASCII digits with no leading zero |
| `PgmWriter.DecimalRoundTrip` | steganography.c:62 | reading the printed digits back gives the number |
| `PgmWriter.Header` | steganography.c:62 | the header has 9 bytes besides the two printed numbers; it starts with `P5\n` and ends with `255\n` |
| `PgmWriter.Image` | steganography.c:54-92 | with w = ceil(sqrt n) and h = ceil(n / w): the file starts with the header for w and h; byte header+i is cell i (clamped intensity or 0 padding) for every i < w*h; nothing follows the last cell |
| `PgmWriter.ImageReadsBack` | steganography.c:62-92 | a PGM reader of the file finds the width, the height and exactly the raster's cells |
| `PgmWriter.FieldRoundTrip` | steganography.c:62 | a number printed by `%d` and followed by a non-digit is parsed back to that number and the rest |
| `PgmWriter.HeaderRoundTrip` | steganography.c:62 | a PGM reader recovers the width, the height and the exact body from header + body |
| `PgmWriter.OneIntensityImage` | steganography.c:49-96 | one intensity 200 gives a 1 by 1 raster: the 12-byte file `P5\n1 1\n255\n` + [200] |
| `PgmWriter.TwoIntensityImage` | steganography.c:49-96 | intensities [200, 17] give a 2 by 1 raster: the 13-byte file `P5\n2 1\n255\n` + [200, 17] |
| `PgmWriter.OutputFile.Open` | steganography.c:57-59 | succeeds exactly when the file can be opened, and then empties it |
| `PgmWriter.OutputFile.Write` | steganography.c:62 | appends all the data when the medium has room for it; otherwise fails and adds nothing |
| `PgmWriter.OutputFile.Close` | steganography.c:94 | closes the file and keeps its contents |
| `PgmWriter.WriteCells` | steganography.c:69-92 | writes the cells one byte at a time, stopping at the first failed write. It succeeds exactly when the medium has room for every cell, and then appends exactly `Body(pixels, cells)` and uses up that much room. Otherwise it appends the first `room` cells and leaves no room |
| `PgmWriter.PixelsToImage` | steganography.c:49-96 | -1 with nothing written when totalBits <= 0 or the open fails. Otherwise 0 exactly when the whole image fits, and then the file is exactly `Image(pixelValues[..totalBits])`. A failed write returns -1 and leaves a proper prefix of the image. The medium's room drops by the image's size on success, to 0 when a body byte fails, and is unchanged when nothing was written |
| `Steganography.Embed` | steganography.c:138-172 | an empty payload produces no image; a non-empty one produces the image of its encoded expansion |
| `Steganography.PaddingSentinel` | steganography.c:69-92 | for encoded intensities a cell is 0 exactly when it is padding, and the data cells are the intensities unchanged |
| `Steganography.DataPrefixOfLayout` | steganography.c:69-92 | dropping everything from the first 0 cell recovers exactly the encoded intensities |
| `Steganography.EmbedRoundTrip` | steganography.c:145-172 | for every non-empty payload and all draws, extraction from the written file gives the payload back |
| `Steganography.EncodeToImage` | steganography.c:138-172 | refuses an empty payload and writes nothing. Otherwise it runs the three in-place stages and `PixelsToImage`; on success the file is the image of the payload, from which the payload can be extracted. An unopenable file is left untouched; any other failure leaves a proper prefix of the image. The medium's room drops by the image's size on success, to 0 when a body byte fails, and is unchanged when nothing was written |

## Left out

- `main`'s input handling (steganography.c:98-143, 146-161, 174-187): reading `input.txt` with
  `fgetc`, the doubling `realloc` buffer, the `malloc` failure exits for `binaryText` and
  `pixelValues` (`EncodeToImage` allocates with `new`, which cannot fail), and the console
  messages.
  `EncodeToImage` starts from the payload already in memory and returns a flag instead of
  printing. The `printf` of dimensions recomputed in floating point is not modelled.
- `srand(time(NULL))` and `rand()` (steganography.c:31, 168): the generator is foreign code.
  Its results are the parameter `draws`, any sequence of non-negative integers, one per call
  in order.
- `RasterLayout.CeilSqrt`, `RasterLayout.CeilDiv`: `Width` and `Height` are these two
  functions applied to the pixel count, and `PixelsToImage` calls `Width` and `Height`. The source computes
  `(int)ceil(sqrt((double)n))` and `(int)ceil((double)n / width)` in double precision. The
  model uses exact integer ceiling square root and ceiling division as the intended meaning.
  The rounding behaviour of `double` is not modelled.
- C `int` widths: `i * 8`, `currentSize * 8` and `height * width` are unbounded integers here.
  Overflow for payloads near 2^28 bytes is not modelled.
- The signedness of `char` in `charToBinary`: the payload is a byte in [0, 255]. For shifts
  0 to 7 the low eight bits of a signed `char` are the same bits.
- `PgmWriter.OutputFile.Write`: the success or failure of `fprintf` and `fwrite` is modelled
  by how much room the medium has left. A failing write adds nothing, so a partial header or
  short write is not modelled.
- `PgmWriter.OutputFile.Close`: stdio buffering is not modelled. Every `Write` reaches the
  medium at once, and `Close` can neither fail nor lose bytes. In the source, `fprintf` and
  `fwrite` may only fill the stdio buffer, so a medium that is full can first report an error
  in the flush at `fclose` (steganography.c:94). The source ignores that result and returns 0
  with an empty or short file. `PgmWriter.PixelsToImage`'s "0 exactly when the whole image
  fits, and then the file is the image" therefore holds for an unbuffered sink only.
- The file name argument of `pixelsToImage`: the `OutputFile` object stands for the file it
  names.
- The unused `written` counter (steganography.c:69, 91).
- `Steganography.Extract` is a reader that the source does not contain. It is here only to
  state what the encoder preserves.

