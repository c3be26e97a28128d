# Prawn PNG decoding, modelled in Dafny

This project models the part of Prawn that reads a PNG image and prepares it for embedding in a
PDF. It covers three pieces.

- `Prawn::Images::PNGHelpers::DataLoader` walks the chunk stream of a PNG file. It collects:
  - the IHDR header fields;
  - the PLTE palette;
  - the IDAT image data, which it then inflates;
  - the tRNS transparency table.
- `Prawn::Images::PNG` holds those attributes and makes the decisions.
  - `can_render?`, `colors`, `alpha_channel?` and `min_pdf_version` are small decisions.
  - `split_image_data` separates interleaved colour and alpha samples into two planes.
  - `generate_alpha_channel` maps the palette indices of an indexed image to their tRNS alpha.
  - `build_pdf_object` validates the image and chooses the image XObject's colour space,
    colour-key `/Mask`, soft mask and Flate parameters.
- `Prawn::Bin` frames keyword arguments for a worker script. `exec` turns them into `--name value`
  pairs, and `args_to_kwargs` reads them back. Marshal is an abstract codec.

The files, one Dafny module each:

- `wrappers.dfy` (`Wrappers`): Option, Result and Outcome.
- `errors.dfy` (`Errors`): the exceptions raised.
- `bytes.dfy` (`Bytes`): bytes, `Min` and `Max`, zero-filled buffers and big-endian integers.
- `unpack.dfy` (`Unpacking`): `String#unpack` for the directives `C`, `n` and `N`.
- `string_io.dfy` (`StringIo`): `StringIO#read` at a cursor and `StringIO#write` into a buffer.
- `data_loader.dfy` (`PngHelpers`): the `DataLoader` class over `seq`s.
  - It has the loop of `load_data` as a `while` loop.
  - It has a functional specification: `Step` for one iteration, `Walk` for the loop,
    `LoadFrom` for the whole call.
- `chunk_stream.dfy` (`ChunkStream`): a chunk-level view of well-formed streams and theorems
  about what loading them gives.
- `planes.dfy` (`Planes`): the specification functions of the two channel-splitting loops and
  their lemmas.
- `png.dfy` (`Images`): the `PNG` class, the pure decisions, and the channel-splitting loops
  over zero-filled `array` buffers.
- `bin.dfy` (`Bin`): the argument framing.

Ruby's `nil` is modelled as follows:

- A header field that no IHDR chunk has set is `None`, and so is a field whose IHDR payload is
  too short.
- An operation that would call a method on `nil`, or do arithmetic with it, returns
  `Err(NilField)` or `Err(MalformedImage)`.
- `Zlib::Inflate.inflate` is passed in as a function `inflate`, which gives `None` where Zlib
  raises.

The model follows the code at three points where its behaviour is easy to miss:

- `@transparency.any?` is true for every non-empty hash. So `{palette: []}` and
  `{grayscale: nil}` give an indexed image an alpha channel.
- A tRNS chunk for a colour type other than 0, 2 and 3 is not skipped. Its payload is never
  read, and the next four bytes are taken as its CRC.
- A `String#unpack` directive that finds too few bytes yields nil without consuming them.

## Model

| member | source | states |
|---|---|---|
| Images.CanRender | lib/prawn/images/png.rb:30-38 | a blob renders exactly when it has at least 8 bytes and its first 8 bytes are 137 80 78 71 13 10 26 10 |
| Images.ColorsOf | lib/prawn/images/png.rb:76-83 | `colors` is nil or one or three components, and is defined for both alpha-sample colour types |
| Images.ColorsAreSamplesLessAlpha | lib/prawn/images/png.rb:76-83 | `colors` is defined for exactly the five colour types of the PNG standard, and is their samples per pixel less the alpha sample (1 for types 0, 3 and 4; 3 for types 2 and 6) |
| Images.SplitStrideIsPixel | lib/prawn/images/png.rb:245-248 | for types 4 and 6 with whole-byte samples, the colour bytes plus the alpha bytes taken per pixel are the whole pixel |
| Images.AlphaChannelCases | lib/prawn/images/png.rb:98-103 | `alpha_channel?` is true for types 4 and 6; for type 3 it is true iff the transparency hash is non-empty; for every other type it is false |
| Images.HasAlphaChannel | lib/prawn/images/png.rb:98-103 | an alpha channel exists only for colour types 3, 4 and 6 |
| Images.MinPdfVersion | lib/prawn/images/png.rb:228-238 | 1.5 iff bits > 8; 1.4 iff bits <= 8 and there is an alpha channel; 1.0 iff bits <= 8 and there is none; a nil bit depth raises |
| Images.SplitOutcome | lib/prawn/images/png.rb:242-250 | file-backed data raises 'nope'; otherwise a nil bits, colors, width or height raises, and nothing else does |
| Images.Split | lib/prawn/images/png.rb:242-278 | the only exceptions are 'nope' and a nil field; on success only `img_data` and `alpha_channel` change, and both hold in-memory bytes |
| Images.SplitPlaneSizes | lib/prawn/images/png.rb:245-261 | with every field present the split succeeds; each plane has the length of its preallocated, zero-filled buffer unless the scanlines overflow it; with exactly `height` scanlines, the colour plus alpha plane length is the input length plus one extra filter byte per scanline |
| Images.Generate | lib/prawn/images/png.rb:280-311 | the only exceptions are 'nope', a missing palette table and a nil field; on success only `alpha_channel` changes, and it is set |
| Images.GenerateOutcome | lib/prawn/images/png.rb:280-311 | raises, in order: file-backed data, no palette table, nil width or height; on success the alpha channel has its buffer's size, which is the input's size for exactly `height` scanlines |
| Images.SplitAlpha | lib/prawn/images/png.rb:88-96 | without an alpha channel nothing changes; on success only `img_data` and `alpha_channel` change, and with an alpha channel `alpha_channel` is set |
| Images.SplitAlphaOutcome | lib/prawn/images/png.rb:88-96 | an indexed image keeps its `img_data`; `alpha_channel?` is the same before and after |
| Images.MethodCheck | lib/prawn/images/png.rb:109-122 | the first of compression, filter and interlace method that is not 0 (nil counts as not 0) is the one reported; none is reported iff all three are 0 |
| Images.DeviceFor | lib/prawn/images/png.rb:128-136 | DeviceGray iff one colour component, DeviceRGB iff three, otherwise unsupported |
| Images.ColorSpaceFor | lib/prawn/images/png.rb:160-174 | a device space iff the palette is empty; otherwise Indexed over DeviceRGB with the palette as lookup, and hival is the last whole palette entry: 3(hival+1) <= palette size < 3(hival+2) |
| Images.Doubled | lib/prawn/images/png.rb:193-194 | twice as long as the keys, with entries 2i and 2i+1 both equal to key i |
| Images.MaskFor | lib/prawn/images/png.rb:183-195 | there is a colour-key mask exactly for a set grey key and for an RGB key; it is a list of [min max] ranges whose two ends are equal |
| Images.MaskRanges | lib/prawn/images/png.rb:183-195 | a grey key v gives the colour-key mask [v v]; a three-entry RGB key gives [r r g g b b]; any RGB key gives a mask of twice its length; a nil grey key, a palette table or no tRNS gives no mask |
| Images.SoftMaskFor | lib/prawn/images/png.rb:201-221 | the soft mask is a DeviceGray image decoded over [0 1] with the image's height, width and bits that streams the alpha channel, and its one-colour Predictor 15 parameters describe its own rows |
| Images.ValidatedFirst | lib/prawn/images/png.rb:109-126 | a non-zero compression, filter or interlace method raises the matching UnsupportedImageType, in that order, before the alpha split, and leaves the attributes untouched; an object is built only when all three are 0 |
| Images.PdfObject | lib/prawn/images/png.rb:108-225 | the attributes afterwards are untouched or the alpha split's; a built object streams the split attributes' `img_data`; an exception is an UnsupportedImageType or the alpha split's |
| Images.PdfObjectContents | lib/prawn/images/png.rb:108-225 | a built object carries the height, width and bits, Predictor 15 with `colors` and `Columns` = width; colors is 1 or 3; without a palette the colour space is DeviceGray for one colour and DeviceRGB for three, with one it is `[/Indexed /DeviceRGB palette.size/3-1 palette]`; the mask is the colour-key mask; there is a soft mask iff there is an alpha channel, and it is the DeviceGray image of the same height, width and bits, decoded over [0 1], streaming `alpha_channel` with one-colour Predictor 15 parameters |
| Images.SoftMaskNeedsTransparency | lib/prawn/images/png.rb:201-238 | an image whose object has a soft mask never reports PDF 1.0 |
| Images.PdfObjectSplitsColor | lib/prawn/images/png.rb:124-126 | for types 4 and 6 a built object streams the colour plane of the inflated scanlines |
| Images.ZeroBuffer | lib/prawn/images/png.rb:255-261 | a fresh buffer of the requested length, all zero |
| Images.SplitScanlines | lib/prawn/images/png.rb:245-277 | the loops of `split_image_data` give exactly the colour and alpha planes `SplitPlanes` specifies |
| Images.SplitLines | lib/prawn/images/png.rb:255-277 | the colour and alpha buffers after the scanline loop are the planes of the `n` whole scanlines, zero-padded to their preallocated size |
| Images.WriteLines | lib/prawn/images/png.rb:263-275 | after the scanline loop each buffer holds its plane of the first `n` scanlines followed by zeros |
| Images.SplitLine | lib/prawn/images/png.rb:264-274 | one iteration appends the output line of one input scanline to each buffer: the filter byte, then the selected bytes of each pixel |
| Images.CopyPixels | lib/prawn/images/png.rb:271-274 | `width.times` appends each pixel's colour bytes to the colour buffer and its alpha bytes to the alpha buffer, in pixel order |
| Images.CopyPixel | lib/prawn/images/png.rb:272-273 | one pixel's `cb` colour bytes and `ab` alpha bytes are appended to their buffers |
| Images.CopyCell | lib/prawn/images/png.rb:272-273 | one `data.read(size)` of a pixel's cell extends the buffer's written prefix by exactly that pixel's bytes at that offset, and the rest stays zero |
| Images.AlphaTable | lib/prawn/images/png.rb:283-286 | the table's keys are exactly 0 to palette size / 3, and looking up any index (0xFF default) gives its tRNS alpha, or 0xFF past the tRNS entries |
| Images.GenerateScanlines | lib/prawn/images/png.rb:288-311 | the loops of `generate_alpha_channel` give exactly the alpha plane `IndexedAlpha` specifies, when the table agrees with the tRNS alphas |
| Images.AlphaLines | lib/prawn/images/png.rb:295-310 | the alpha buffer after the loop is the alpha plane of the whole scanlines, zero-padded to its preallocated size |
| Images.WriteAlphaLines | lib/prawn/images/png.rb:299-310 | after the scanline loop the buffer holds the alpha plane of the first `n` scanlines followed by zeros |
| Images.WriteAlphaLine | lib/prawn/images/png.rb:302-309 | one scanline appends its filter byte and then the alpha of each of its palette indices |
| Images.AlphaPixels | lib/prawn/images/png.rb:306-309 | `width.times` appends, in pixel order, the table alpha of each of the scanline's `width` palette indices |
| Images.AppendAlpha | lib/prawn/images/png.rb:307-308 | one index byte is read and its alpha, as `PaletteAlpha` defines it, extends the written prefix by one byte |
| Images.PNG.constructor | lib/prawn/images/png.rb:63-72 | the attributes are the loader's results, with the given `img_data` and no alpha channel yet |
| Images.PNG.Open | lib/prawn/images/png.rb:55-60 | a blob gives a fresh PNG whose attributes are `LoadFrom` of the blob (inflated data in memory), or the loader's exception; the caller's buffer is unchanged |
| Images.PNG.SplitImageData | lib/prawn/images/png.rb:242-278 | on success the attributes become `Split` of the old ones; on an exception they are unchanged |
| Images.PNG.GenerateAlphaChannel | lib/prawn/images/png.rb:280-311 | on success the attributes become `Generate` of the old ones; on an exception they are unchanged |
| Images.PNG.SplitAlphaChannel | lib/prawn/images/png.rb:88-96 | on success the attributes become `SplitAlpha` of the old ones; on an exception they are unchanged |
| Images.PNG.BuildPdfObject | lib/prawn/images/png.rb:108-225 | the result and the attributes afterwards are those `PdfObject` gives for the old attributes |
| Planes.SplitSizes | lib/prawn/images/png.rb:245-259 | each plane is as long as its preallocated buffer, unless the scanlines need more; with exactly `h` scanlines both buffers are filled exactly, and together they hold the input plus `h` bytes |
| Planes.PlanePixel | lib/prawn/images/png.rb:263-274 | byte j of pixel p in output scanline `line` is byte `off + j` of that pixel in input scanline `line` |
| Planes.CellsAt | lib/prawn/images/png.rb:271-274 | byte j of pixel p's selection is byte `off + j` of that pixel's group |
| Planes.PlaneLine | lib/prawn/images/png.rb:263-269 | output scanline `line` of a plane is the line built from input scanline `line` |
| Planes.ExactSizes | lib/prawn/images/png.rb:248-259 | for `h` whole scanlines the two preallocated sizes add up to the scanline bytes plus `h` |
| Planes.PaletteAlpha | lib/prawn/images/png.rb:283-286 | an index within the palette bound that the tRNS payload covers gets its tRNS alpha; any other is opaque (0xFF) |
| Planes.Alphas | lib/prawn/images/png.rb:306-309 | each palette index is replaced by its alpha, in order |
| Planes.AlphaPlaneAt | lib/prawn/images/png.rb:299-310 | the alpha plane lies over the scanlines byte for byte: filter bytes are copied, each palette index becomes its alpha |
| Planes.IndexedAlphaSize | lib/prawn/images/png.rb:288-297 | the alpha output is as long as its buffer unless the scanlines need more; with exactly `h` scanlines it is as long as the input |
| StringIo.Write | lib/prawn/images/png.rb:272-273 | writing at a cursor replaces exactly the bytes it covers |
| StringIo.Append | lib/prawn/images/png.rb:268-273 | writing after what was written extends it, and the rest of the zero-filled buffer stays zero |
| Bytes.Padded | lib/prawn/images/png.rb:255-260 | a zero-filled buffer written from its start holds the bytes written, then zeros, and is as long as the larger of the two |
| StringIo.Read | lib/prawn/images/png_helpers/data_loader.rb:47-53 | `read(n)` is nil exactly for n > 0 at or past the end, and then leaves the cursor; otherwise it gives at most n bytes, exactly `min(n, bytes left)` of them, the bytes at the cursor, and advances the cursor by their count |
| Unpacking.Unpack1 | lib/prawn/images/png_helpers/data_loader.rb:47 | `unpack1` gives the directive's value when there are enough bytes, nil otherwise |
| Unpacking.Unpack | lib/prawn/images/png_helpers/data_loader.rb:53 | `unpack` gives one value or nil per directive |
| Unpacking.UnpackComplete | lib/prawn/images/png_helpers/data_loader.rb:53 | every directive gets a value when the string holds the bytes of the whole format |
| Unpacking.IhdrFields | lib/prawn/images/png_helpers/data_loader.rb:53-61 | a 13-byte IHDR payload gives width and height as big-endian u32, then the five one-byte fields, in order |
| Unpacking.FiveBytes | lib/prawn/images/png_helpers/data_loader.rb:53 | five 'C' directives give the first five bytes, in order |
| Unpacking.RgbFields | lib/prawn/images/png_helpers/data_loader.rb:80 | 'nnn' gives the first three big-endian u16 of the payload, nil for each one it does not hold |
| PngHelpers.Step | lib/prawn/images/png_helpers/data_loader.rb:46-91 | an iteration that continues started before the end and moved the cursor forward; the loop finishes only at an IEND tag, with the fields unchanged; the only exception is MalformedImage |
| PngHelpers.Walk | lib/prawn/images/png_helpers/data_loader.rb:46-91 | the loop finishes successfully only where an IEND type tag stands in the stream, and raises nothing but MalformedImage |
| PngHelpers.TrnsFor | lib/prawn/images/png_helpers/data_loader.rb:69-81 | after a tRNS chunk the table is never empty; palette alphas are every payload byte, the grey key is nil exactly for a payload shorter than two bytes, and there are always three RGB keys |
| PngHelpers.WithHeader | lib/prawn/images/png_helpers/data_loader.rb:55-61 | setting the header fields leaves the palette, image data and transparency as they were |
| PngHelpers.Interpret | lib/prawn/images/png_helpers/data_loader.rb:50-81 | only IHDR touches the header fields, PLTE and IDAT extend the palette and the image data by the payload, and only tRNS touches the transparency |
| PngHelpers.Body | lib/prawn/images/png_helpers/data_loader.rb:49-88 | the cursor never moves back; it fails only on a payload read of a non-empty payload at the end; each chunk type changes only its own fields |
| PngHelpers.LoadFrom | lib/prawn/images/png_helpers/data_loader.rb:36-94 | the only exceptions are MalformedImage and a Zlib failure; a result is the loop's fields with the image data replaced by its inflation |
| PngHelpers.DataLoader.constructor | lib/prawn/images/png_helpers/data_loader.rb:13-15 | the loader reads a copy of the caller's bytes from cursor 0, with no fields set |
| PngHelpers.DataLoader.Call | lib/prawn/images/png_helpers/data_loader.rb:17-32 | the result is `LoadFrom` of the data and the fields before the call, and the fields are the result |
| PngHelpers.DataLoader.LoadData | lib/prawn/images/png_helpers/data_loader.rb:36-94 | rewind, skip the signature and reset, then the chunk loop and inflation leave the fields `LoadFrom` specifies, and fail exactly where it fails |
| PngHelpers.DataLoader.ChunkLoop | lib/prawn/images/png_helpers/data_loader.rb:46-91 | the `loop do` from the current cursor and fields stops at IEND with the fields `Walk` specifies, and fails exactly where `Walk` fails |
| PngHelpers.DataLoader.Dispatch | lib/prawn/images/png_helpers/data_loader.rb:49-88 | one `case section` gives the fields and cursor `Body` specifies, and fails exactly where a read returns nil |
| PngHelpers.DataLoader.LoadHeader | lib/prawn/images/png_helpers/data_loader.rb:50-61 | the payload read moves the cursor; it fails exactly when that read returns nil, and otherwise the seven header fields take the unpacked payload while the palette, image data and transparency stay |
| PngHelpers.DataLoader.SetHeader | lib/prawn/images/png_helpers/data_loader.rb:55-61 | the seven instance variables take the seven unpacked values, and the cursor stays |
| PngHelpers.DataLoader.AppendPalette | lib/prawn/images/png_helpers/data_loader.rb:62-63 | a PLTE payload is appended to the palette, and the read failing is the only failure |
| PngHelpers.DataLoader.AppendImageData | lib/prawn/images/png_helpers/data_loader.rb:64-65 | an IDAT payload is appended to the compressed image data, and the read failing is the only failure |
| PngHelpers.DataLoader.LoadTransparency | lib/prawn/images/png_helpers/data_loader.rb:66-81 | tRNS empties the transparency, then for colour types 3, 0 and 2 reads the payload as the palette alphas, the grey value or the three RGB values; other types read nothing |
| ChunkStream.LoadStream | lib/prawn/images/png_helpers/data_loader.rb:36-94 | loading a stream of well-formed, in-sync chunks followed by IEND gives the fields folded from the chunks, with the IDAT bytes inflated |
| ChunkStream.WalkOverChunks | lib/prawn/images/png_helpers/data_loader.rb:46-91 | the loop over chunks laid out back to back and followed by IEND ends with the folded fields |
| ChunkStream.WalkThroughChunks | lib/prawn/images/png_helpers/data_loader.rb:46-91 | over in-sync chunks laid out back to back the loop reaches the offset after them with the folded fields |
| ChunkStream.WalkAtShortEnd | lib/prawn/images/png_helpers/data_loader.rb:46-90 | with fewer than 8 bytes left the loop raises: the length read is nil or short, or the type read is, and the skipped chunk leaves the next read at the end |
| ChunkStream.TruncatedStream | lib/prawn/images/png_helpers/data_loader.rb:36-91 | a stream of well-formed, in-sync chunks followed by fewer than 8 bytes, so with no IEND chunk, raises MalformedImage |
| ChunkStream.FoldPayloads | lib/prawn/images/png_helpers/data_loader.rb:62-65 | PLTE payloads are appended to the palette and IDAT payloads to the image data, in stream order |
| ChunkStream.FoldHeader | lib/prawn/images/png_helpers/data_loader.rb:50-61 | the header fields are those of the last IHDR chunk, or stay as they were without one |
| ChunkStream.FoldNoTrns | lib/prawn/images/png_helpers/data_loader.rb:66-81 | without a tRNS chunk the transparency stays as it was |
| ChunkStream.ApplyIhdr | lib/prawn/images/png_helpers/data_loader.rb:50-61 | a full IHDR payload sets the seven header fields and nothing else |
| ChunkStream.ApplyTrns | lib/prawn/images/png_helpers/data_loader.rb:66-81 | tRNS replaces the transparency: palette alphas for type 3, a grey key for type 0, an RGB key for type 2, nothing for other types; nothing else changes |
| ChunkStream.StepOverUnreadTrns | lib/prawn/images/png_helpers/data_loader.rb:66-90 | a tRNS chunk for another colour type empties the transparency, and the next iteration starts 12 bytes after the chunk's start |
| ChunkStream.SkipUnknown | lib/prawn/images/png_helpers/data_loader.rb:85-90 | an unknown chunk is skipped whole, and no field changes |
| ChunkStream.CrcIgnored | lib/prawn/images/png_helpers/data_loader.rb:90 | streams that differ only in CRC bytes load the same way |
| ChunkStream.SignatureIgnored | lib/prawn/images/png_helpers/data_loader.rb:40 | streams that agree after their first 8 bytes load the same way |
| ChunkStream.LoadNeedsIend | lib/prawn/images/png_helpers/data_loader.rb:46-84 | for any bytes, loading succeeds only where an IEND tag stands after the signature and a length field |
| ChunkStream.PlainImage | lib/prawn/images/png_helpers/data_loader.rb:36-94 | a stream without PLTE and tRNS gives no palette, no transparency, the last IHDR's header and the inflated concatenation of the IDAT payloads, and succeeds iff inflation does |
| Bin.ExecArgs | lib/prawn/bin.rb:8 | the argument list holds two entries per keyword argument |
| Bin.ExecArgsPairs | lib/prawn/bin.rb:8 | entry 2i is `--` followed by name i, and entry 2i+1 is the dump of value i, in keyword order |
| Bin.DeletePrefix | lib/prawn/bin.rb:23 | one leading `--` is removed when present; otherwise the name is unchanged |
| Bin.Get | lib/prawn/bin.rb:22 | a name has no value exactly when it is not a key |
| Bin.Put | lib/prawn/bin.rb:22 | after assigning, the name holds the new value and every other name holds what it held |
| Bin.PutNames | lib/prawn/bin.rb:22 | assigning keeps the order of the keys; only a new name is added, at the end |
| Bin.CollectSucceeds | lib/prawn/bin.rb:21-25 | argv is read back exactly when it has whole pairs and every value loads |
| Bin.OddArgvFails | lib/prawn/bin.rb:21-25 | an odd argv whose values all load raises on the final name that has no value |
| Bin.CollectBindings | lib/prawn/bin.rb:21-25 | each name holds the value of its last pair, and a name no pair carries keeps what it held |
| Bin.LaterPairWins | lib/prawn/bin.rb:21-25 | when a name repeats, its later pair's value wins |
| Bin.AbsentName | lib/prawn/bin.rb:21-25 | a name that no pair carries is not a key of the result |
| Bin.Collect | lib/prawn/bin.rb:21-25 | the only exceptions are a missing value and a value `load` rejects; a hash comes back only for whole pairs |
| Bin.CollectKeepsNames | lib/prawn/bin.rb:22-24 | a name already collected stays a key after the remaining pairs |
| Bin.ArgsToKwargs | lib/prawn/bin.rb:21-25 | `args_to_kwargs` raises only for a missing value or an unloadable one, and succeeds only for whole pairs |
| Bin.RoundTrip | lib/prawn/bin.rb:8-25 | for a lossless codec and distinct names, `args_to_kwargs` of `exec`'s argument list is the keyword arguments |
| Bin.Exec | lib/prawn/bin.rb:16-18 | a non-zero worker status raises with the worker's stderr, and only then; with status 0 the result is the value `load` gives for the worker's stdout, and UnreadableValue exactly when `load` rejects it |
| Bin.Puts | lib/prawn/bin.rb:28 | `puts` output starts with the string and ends with exactly one added newline, none when the string already ends with one |
| Bin.PrintReturnValue | lib/prawn/bin.rb:27-29 | a worker's output is the dump of its value followed by something |
| Bin.ReadsOneObjectLossless | lib/prawn/bin.rb:18 | a codec that reads one object and ignores what follows gives back every dumped value |
| Bin.ExecReturnsWorkerValue | lib/prawn/bin.rb:16-29 | a worker that exits 0 having printed v with `print_return_value` (the dump, then a newline) hands v back, given a codec that reads one object and ignores what follows |

## Left out

- File I/O is left out: the `Pathname` branches of `can_render?` and `initialize`, `File.read`,
  the Tempfile, and the `load_png_data` and `zlib_process_file` worker scripts. The file-backed
  case is kept only as `ImageData.FileBacked`, so that 'nope' is raised where the source raises it.
- Zlib inflate is a function parameter, not an implementation.
- The Marshal wire format is an abstract `Codec`. Two laws are assumed of it where a lemma needs
  them: `load` gives back what `dump` produced, and `load` reads one object and ignores what
  follows it (so that a worker's `puts` newline does no harm).
- The subprocess is a function parameter `run` from script and argument list to stdout, stderr
  and status. Spawning it, `Bundler.with_unbundled_env`, the `puts` of the command line, and the
  script path are left out. These are operating-system plumbing.
- Bin.Exec: the exception carries only the worker's stderr, not the rest of the message text.
- Building the PDF objects through pdf-core (`document.ref!`, `obj <<`, `stream.filters`) is
  external. `ImageObject` holds only the values the source decides: dictionary entries, stream
  contents and filter parameters.
- The `/Mask` and `/Indexed` entries reference other objects in the source. Here they hold the
  values those objects would carry, such as the palette bytes.
- Images.DeviceFor: an unsupported `colors` raises `UnsupportedImageType(NumberOfColors)`.
  The source actually raises NameError, while building that exception's message (the undefined
  `png` at lib/prawn/images/png.rb:135). Either way the call raises and builds no object.
- Images.MinPdfVersion: the source returns the floats 1.0, 1.4 and 1.5. The model returns an enum
  tier, because no arithmetic is done on the number.
- Images.SplitScanlines and Images.GenerateScanlines allocate each output buffer once, at its
  final size. That size is the preallocated size, or the plane's length when that is larger. A
  `StringIO` instead grows its string when a write passes the end; the contents agree.
- Images.PNG.SplitImageData and Images.PNG.GenerateAlphaChannel copy the inflated bytes into
  `seq`s. The source's `StringIO` wraps the string without copying it, but nothing else sees
  that string while the loop runs.
- The CRC of each chunk and the PNG signature are read but never checked by the source, and the
  model does not check them either (see ChunkStream.CrcIgnored and ChunkStream.SignatureIgnored).
- Ruby's exception classes are folded into one `Error` datatype. NoMethodError and TypeError on
  nil become `MalformedImage` during the chunk loop and `NilField` in the pixel loops.
- Keyword names are strings. Converting them to and from symbols (`to_sym` and the interpolation
  `"--#{key}"`) is the identity on their text.
