/** Prawn::Images::PNG: the attributes of a decoded PNG, the decisions that turn them into a PDF
    image XObject, and the channel splitting that gives the image a separate alpha plane. */
module Images {
  import opened Wrappers
  import opened Bytes
  import opened Errors
  import opened StringIo
  import opened PngHelpers
  import opened Planes

  /** The eight bytes a PNG datastream starts with: 137 'P' 'N' 'G' CR LF SUB LF. */
  const Signature: seq<byte> := [137, 80, 78, 71, 13, 10, 26, 10]

  /** `can_render?` on an in-memory blob: the blob's first eight bytes (fewer when it is shorter)
      are the PNG signature. */
  function CanRender(blob: seq<byte>): (r: bool)
    ensures r <==> |blob| >= 8 && blob[..8] == Signature
  {
    blob[..Min(8, |blob|)] == Signature
  }

  // ---------------------------------------------------------------------------------------
  // Colour types

  /** `colors`: the number of colour components of a pixel, nil for a colour type it does not
      know (and for a missing IHDR). */
  function ColorsOf(colorType: Option<nat>): (r: Option<nat>)
    ensures r.Some? ==> r == Some(1) || r == Some(3)
    ensures colorType.Some? && HasAlphaSample(colorType.value) ==> r.Some?
  {
    if colorType == Some(0) || colorType == Some(3) || colorType == Some(4) then Some(1)
    else if colorType == Some(2) || colorType == Some(6) then Some(3)
    else None
  }

  /** The colour types a PNG image header may carry, with the samples per pixel of each, as
      listed for IHDR in section 11.2.2 of ISO/IEC 15948 (greyscale, truecolour, indexed-colour,
      greyscale with alpha, truecolour with alpha). */
  function SamplesPerPixel(colorType: nat): Option<nat>
  {
    match colorType
    case 0 => Some(1)
    case 2 => Some(3)
    case 3 => Some(1)
    case 4 => Some(2)
    case 6 => Some(4)
    case _ => None
  }

  /** Colour types 4 and 6 store an alpha sample in every pixel. */
  predicate HasAlphaSample(colorType: nat)
  {
    colorType == 4 || colorType == 6
  }

  /** `colors` knows exactly the colour types of the standard, and counts the samples of a pixel
      other than its alpha sample. */
  lemma ColorsAreSamplesLessAlpha(colorType: nat)
    ensures ColorsOf(Some(colorType)).Some? <==> SamplesPerPixel(colorType).Some?
    ensures SamplesPerPixel(colorType).Some? ==>
      ColorsOf(Some(colorType)).value + (if HasAlphaSample(colorType) then 1 else 0)
        == SamplesPerPixel(colorType).value
  {
  }

  /** For the interleaved types with whole-byte samples, the colour and alpha bytes that
      `split_image_data` takes from a pixel are the whole pixel. */
  lemma SplitStrideIsPixel(colorType: nat, bits: nat)
    requires HasAlphaSample(colorType) && bits % 8 == 0
    ensures ColorsOf(Some(colorType)).value * bits / 8 + bits / 8
              == SamplesPerPixel(colorType).value * bits / 8
  {
    var k := bits / 8;
    var c := ColorsOf(Some(colorType)).value;
    assert bits == 8 * k;
    assert c * bits == 8 * (c * k);
    assert (c + 1) * bits == 8 * ((c + 1) * k);
  }

  /** `alpha_channel?`: the pixels carry an alpha sample (types 4 and 6), or an indexed image
      has any tRNS entry at all (`@transparency.any?`, true for every non-empty hash). */
  predicate HasAlphaChannel(colorType: Option<nat>, transparency: Transparency)
    ensures HasAlphaChannel(colorType, transparency) ==>
      colorType == Some(3) || colorType == Some(4) || colorType == Some(6)
  {
    if colorType == Some(4) || colorType == Some(6) then true
    else if colorType == Some(3) then transparency != Empty
    else false
  }

  /** An alpha channel exists exactly for the alpha-sample colour types and for indexed images
      with a transparency table; for every other colour type tRNS data never makes one. */
  lemma AlphaChannelCases(colorType: Option<nat>, transparency: Transparency)
    ensures colorType.Some? && HasAlphaSample(colorType.value) ==> HasAlphaChannel(colorType, transparency)
    ensures colorType == Some(3) ==> (HasAlphaChannel(colorType, transparency) <==> transparency != Empty)
    ensures colorType != Some(3) && !(colorType.Some? && HasAlphaSample(colorType.value)) ==>
      !HasAlphaChannel(colorType, transparency)
  {
  }

  // ---------------------------------------------------------------------------------------
  // PNG attributes

  /** `@img_data`: the inflated scanlines in memory, or a file-backed stream written by the
      worker process. */
  datatype ImageData = InMemory(bytes: seq<byte>) | FileBacked(path: string)

  /** The attributes of a PNG object. */
  datatype Image = Image(
    palette: seq<byte>,
    imgData: ImageData,
    transparency: Transparency,
    width: Option<nat>,
    height: Option<nat>,
    bits: Option<nat>,
    colorType: Option<nat>,
    compressionMethod: Option<nat>,
    filterMethod: Option<nat>,
    interlaceMethod: Option<nat>,
    alphaChannel: Option<seq<byte>>)

  /** The attributes `initialize` copies from the loader's results; `img_data` is the loader's
      in memory, or the file the worker wrote. */
  function FromResults(l: Loaded, imgData: ImageData): Image
  {
    Image(l.palette, imgData, l.transparency, l.width, l.height, l.bits, l.colorType,
          l.compressionMethod, l.filterMethod, l.interlaceMethod, None)
  }

  /** The tier `min_pdf_version` returns: PDF 1.0, 1.4 or 1.5. */
  datatype Tier = V1_0 | V1_4 | V1_5

  /** `min_pdf_version`: 1.5 for samples wider than 8 bits, else 1.4 when a soft mask will be
      needed, else 1.0; comparing a nil bit depth raises. */
  function MinPdfVersion(s: Image): (r: Result<Tier, Error>)
    ensures r.Err? <==> s.bits.None?
    ensures r.Err? ==> r.error == NilField
    ensures r == Ok(V1_5) <==> s.bits.Some? && s.bits.value > 8
    ensures r == Ok(V1_4) <==> s.bits.Some? && s.bits.value <= 8 && HasAlphaChannel(s.colorType, s.transparency)
    ensures r == Ok(V1_0) <==> s.bits.Some? && s.bits.value <= 8 && !HasAlphaChannel(s.colorType, s.transparency)
  {
    if s.bits.None? then Err(NilField)
    else if s.bits.value > 8 then Ok(V1_5)
    else if HasAlphaChannel(s.colorType, s.transparency) then Ok(V1_4)
    else Ok(V1_0)
  }

  // ---------------------------------------------------------------------------------------
  // Channel splitting

  /** `split_image_data`: the inflated scanlines of an image whose pixels hold `colors * bits / 8`
      colour bytes followed by `bits / 8` alpha bytes become a colour plane, which replaces
      `img_data`, and an alpha plane, which becomes `alpha_channel`. */
  function Split(s: Image): (r: Result<Image, Error>)
    ensures r.Err? ==> r.error == NotInMemory || r.error == NilField
    ensures r.Ok? ==>
      && r.value == s.(imgData := r.value.imgData, alphaChannel := r.value.alphaChannel)
      && r.value.imgData.InMemory? && r.value.alphaChannel.Some?
  {
    if s.imgData.FileBacked? then Err(NotInMemory)
    else if s.bits.None? || ColorsOf(s.colorType).None? || s.width.None? || s.height.None? then Err(NilField)
    else
      var ab := s.bits.value / 8;
      var cb := ColorsOf(s.colorType).value * s.bits.value / 8;
      var (color, alpha) := SplitPlanes(s.imgData.bytes, s.width.value, s.height.value, cb, ab);
      Ok(s.(imgData := InMemory(color), alphaChannel := Some(alpha)))
  }

  /** The value `Hash.new(0xff)` gives for a key it does not hold. */
  function Lookup(table: map<nat, byte>, i: nat): byte
  {
    if i in table then table[i] else 0xFF
  }

  /** `generate_alpha_channel`: an indexed image gets an alpha plane in which every palette
      index is replaced by its tRNS alpha; `img_data` stays as it is. */
  function Generate(s: Image): (r: Result<Image, Error>)
    ensures r.Err? ==> r.error == NotInMemory || r.error == NoPaletteTable || r.error == NilField
    ensures r.Ok? ==> r.value == s.(alphaChannel := r.value.alphaChannel) && r.value.alphaChannel.Some?
  {
    if s.imgData.FileBacked? then Err(NotInMemory)
    else if !s.transparency.Palette? then Err(NoPaletteTable)
    else if s.width.None? || s.height.None? then Err(NilField)
    else
      var alpha := IndexedAlpha(s.imgData.bytes, s.width.value, s.height.value, |s.palette|,
                                s.transparency.alphas);
      Ok(s.(alphaChannel := Some(alpha)))
  }

  /** `split_alpha_channel!`: nothing happens without an alpha channel; an indexed image has its
      alpha plane generated, any other has it split out of the pixels. */
  function SplitAlpha(s: Image): (r: Result<Image, Error>)
    ensures !HasAlphaChannel(s.colorType, s.transparency) ==> r == Ok(s)
    ensures r.Ok? ==> r.value == s.(imgData := r.value.imgData, alphaChannel := r.value.alphaChannel)
    ensures r.Ok? && HasAlphaChannel(s.colorType, s.transparency) ==> r.value.alphaChannel.Some?
  {
    if !HasAlphaChannel(s.colorType, s.transparency) then Ok(s)
    else if s.colorType == Some(3) then Generate(s)
    else Split(s)
  }

  /** `split_image_data` needs the pixels in memory and every header field its arithmetic uses,
      and it changes nothing but `img_data` and `alpha_channel`. */
  lemma SplitOutcome(s: Image)
    ensures s.imgData.FileBacked? ==> Split(s) == Err(NotInMemory)
    ensures s.imgData.InMemory? ==>
      (Split(s) == Err(NilField) <==>
         s.bits.None? || ColorsOf(s.colorType).None? || s.width.None? || s.height.None?)
  {
  }

  /** The planes `split_image_data` gives for a `w` by `h` image with `cb` colour and `ab` alpha
      bytes per pixel have the sizes of their zero-filled buffers unless the scanlines overflow
      them, exactly so when the data holds `h` whole scanlines. */
  lemma SplitPlaneSizes(s: Image, img: seq<byte>, w: nat, h: nat, cb: nat, ab: nat)
    requires s.imgData == InMemory(img) && s.width == Some(w) && s.height == Some(h)
    requires s.bits.Some? && ColorsOf(s.colorType).Some?
    requires cb == ColorsOf(s.colorType).value * s.bits.value / 8 && ab == s.bits.value / 8
    ensures Split(s).Ok?
    ensures var t := Split(s).value;
      var l := Mul(w, cb + ab) + 1;
      var n := Scanlines(|img|, l);
      && t.imgData.InMemory? && t.alphaChannel.Some?
      && |t.imgData.bytes| == Max(Mul(Mul(w, h), cb) + n, Mul(n, 1 + Mul(w, cb)))
      && |t.alphaChannel.value| == Max(Mul(Mul(w, h), ab) + n, Mul(n, 1 + Mul(w, ab)))
      && (|img| == Mul(h, l) ==>
            && |t.imgData.bytes| == Mul(Mul(w, h), cb) + h
            && |t.alphaChannel.value| == Mul(Mul(w, h), ab) + h
            && |t.imgData.bytes| + |t.alphaChannel.value| == |img| + h)
  {
    var planes := SplitPlanes(img, w, h, cb, ab);
    assert Split(s).value == s.(imgData := InMemory(planes.0), alphaChannel := Some(planes.1));
    SplitSizes(img, w, h, cb, ab);
  }

  /** `generate_alpha_channel` needs the pixels in memory, then a palette transparency table,
      then the width and height, in that order; it leaves `img_data` and every other attribute
      as they were, and its alpha plane has the size of its buffer. */
  lemma GenerateOutcome(s: Image)
    ensures s.imgData.FileBacked? ==> Generate(s) == Err(NotInMemory)
    ensures s.imgData.InMemory? && !s.transparency.Palette? ==> Generate(s) == Err(NoPaletteTable)
    ensures s.imgData.InMemory? && s.transparency.Palette? ==>
      (Generate(s) == Err(NilField) <==> s.width.None? || s.height.None?)
    ensures Generate(s).Ok? ==>
      var t := Generate(s).value;
      var (w, h) := (s.width.value, s.height.value);
      var n := Scanlines(|s.imgData.bytes|, w + 1);
      && t.alphaChannel.Some?
      && |t.alphaChannel.value| == Max(Mul(w, h) + n, Mul(n, w + 1))
      && (|s.imgData.bytes| == Mul(h, w + 1) ==> |t.alphaChannel.value| == |s.imgData.bytes|)
  {
    if Generate(s).Ok? {
      IndexedAlphaSize(s.imgData.bytes, s.width.value, s.height.value, |s.palette|, s.transparency.alphas);
    }
  }

  /** `split_alpha_channel!` leaves an image without an alpha channel alone; for one with an
      alpha channel it succeeds only by providing `alpha_channel`, and only the split of
      interleaved pixels replaces `img_data`. */
  lemma SplitAlphaOutcome(s: Image)
    ensures HasAlphaChannel(s.colorType, s.transparency) && s.colorType == Some(3) && SplitAlpha(s).Ok? ==>
      SplitAlpha(s).value.imgData == s.imgData
    ensures SplitAlpha(s).Ok? ==> HasAlphaChannel(SplitAlpha(s).value.colorType, SplitAlpha(s).value.transparency)
                                  == HasAlphaChannel(s.colorType, s.transparency)
  {
    if HasAlphaChannel(s.colorType, s.transparency) {
      if s.colorType == Some(3) {
        GenerateOutcome(s);
      } else {
        SplitOutcome(s);
      }
    }
  }

  // ---------------------------------------------------------------------------------------
  // The PDF image object

  /** The device colour spaces of the image dictionary. */
  datatype DeviceSpace = DeviceGray | DeviceRGB

  /** `/ColorSpace`: a device space, or `[/Indexed base hival lookup]` with the palette. */
  datatype ColorSpace =
    | Device(space: DeviceSpace)
    | Indexed(base: DeviceSpace, hival: int, lookup: seq<byte>)

  /** The `/FlateDecode` decode parameters attached to an image stream. */
  datatype FlateParms = FlateParms(predictor: nat, colors: Option<nat>, bits: Option<nat>, columns: Option<nat>)

  /** The `/SMask` soft-mask image. */
  datatype SoftMask = SoftMask(
    height: Option<nat>,
    width: Option<nat>,
    bits: Option<nat>,
    colorSpace: DeviceSpace,
    decode: seq<nat>,
    data: Option<seq<byte>>,
    parms: FlateParms)

  /** The decision values of the image XObject: its dictionary entries, its stream and the
      stream's filter parameters; the mask entries are absent (None) unless set. */
  datatype ImageObject = ImageObject(
    height: Option<nat>,
    width: Option<nat>,
    bits: Option<nat>,
    data: ImageData,
    parms: FlateParms,
    colorSpace: ColorSpace,
    mask: Option<seq<Option<nat>>>,
    smask: Option<SoftMask>)

  /** PNG predictor functions, chosen per row (the `/Predictor` value 15 of the Flate filter). */
  const PngPredictors: nat := 15

  /** The first of compression, filter and interlace method that is not 0 (a nil method is not
      0 either), in the order build_pdf_object checks them. */
  function MethodCheck(compression: Option<nat>, filter: Option<nat>, interlace: Option<nat>): (r: Option<Unsupported>)
    ensures r.None? <==> compression == Some(0) && filter == Some(0) && interlace == Some(0)
    ensures r == Some(CompressionMethod) <==> compression != Some(0)
    ensures r == Some(FilterMethod) <==> compression == Some(0) && filter != Some(0)
    ensures r == Some(InterlaceMethod) <==> compression == Some(0) && filter == Some(0) && interlace != Some(0)
  {
    if compression != Some(0) then Some(CompressionMethod)
    else if filter != Some(0) then Some(FilterMethod)
    else if interlace != Some(0) then Some(InterlaceMethod)
    else None
  }

  /** The device space for one or three colour components; any other count is unsupported. */
  function DeviceFor(colors: Option<nat>): (r: Option<DeviceSpace>)
    ensures r == Some(DeviceGray) <==> colors == Some(1)
    ensures r == Some(DeviceRGB) <==> colors == Some(3)
  {
    if colors == Some(1) then Some(DeviceGray)
    else if colors == Some(3) then Some(DeviceRGB)
    else None
  }

  /** Without a palette the device space; with one, an indexed space over RGB whose highest
      index is the last whole palette entry (-1 for a palette shorter than one entry). */
  function ColorSpaceFor(palette: seq<byte>, device: DeviceSpace): (r: ColorSpace)
    ensures r.Device? <==> |palette| == 0
    ensures r.Device? ==> r.space == device
    ensures r.Indexed? ==>
      && r.base == DeviceRGB && r.lookup == palette
      && 3 * (r.hival + 1) <= |palette| < 3 * (r.hival + 2)
  {
    if |palette| == 0 then Device(device)
    else Indexed(DeviceRGB, |palette| / 3 - 1, palette)
  }

  /** Every key twice, in order: `rgb.map { |x| [x, x] }.flatten`. */
  function Doubled(keys: seq<Option<nat>>): (r: seq<Option<nat>>)
    ensures |r| == 2 * |keys|
    ensures forall i :: 0 <= i < |keys| ==> r[2 * i] == keys[i] && r[2 * i + 1] == keys[i]
  {
    if keys == [] then []
    else
      var rest := Doubled(keys[1..]);
      assert forall i :: 1 <= i < |keys| ==> rest[2 * (i - 1)] == keys[1..][i - 1] == keys[i];
      [keys[0], keys[0]] + rest
  }

  /** `/Mask`, colour-key masking (section 8.9.6.4 of ISO 32000-1): a grey key v gives [v v];
      otherwise rgb keys give each key twice. A missing grey key, a palette table and no tRNS
      give no mask. */
  function MaskFor(t: Transparency): (r: Option<seq<Option<nat>>>)
    ensures r.Some? <==> (t.Gray? && t.key.Some?) || t.Rgb?
    ensures r.Some? ==> |r.value| % 2 == 0 && forall i :: 0 <= i < |r.value| / 2 ==> r.value[2 * i] == r.value[2 * i + 1]
  {
    match t
    case Gray(Some(v)) => Some([Some(v), Some(v)])
    case Rgb(keys) => Some(Doubled(keys))
    case _ => None
  }

  /** A colour-key mask holds a range [min max] per colour component whose ends are both the
      key: [v v] for grey, [r r g g b b] for an RGB key. */
  lemma MaskRanges(t: Transparency)
    ensures t.Gray? && t.key.Some? ==> MaskFor(t) == Some([t.key, t.key])
    ensures t.Rgb? && |t.keys| == 3 ==>
      MaskFor(t) == Some([t.keys[0], t.keys[0], t.keys[1], t.keys[1], t.keys[2], t.keys[2]])
    ensures t.Rgb? ==> MaskFor(t).Some? && |MaskFor(t).value| == 2 * |t.keys|
    ensures (t.Gray? && t.key.None?) || t.Palette? || t.Empty? ==> MaskFor(t).None?
  {
    if t.Rgb? && |t.keys| == 3 {
      var m := Doubled(t.keys);
      assert m[0] == m[1] == t.keys[0];
      assert m[2 * 1] == m[2 * 1 + 1] == t.keys[1];
      assert m[2 * 2] == m[2 * 2 + 1] == t.keys[2];
      assert m == [t.keys[0], t.keys[0], t.keys[1], t.keys[1], t.keys[2], t.keys[2]];
    }
  }

  /** The `/SMask` image for an alpha plane: grey, decoded over [0 1], one colour component. */
  function SoftMaskFor(height: Option<nat>, width: Option<nat>, bits: Option<nat>,
                       alphaChannel: Option<seq<byte>>): (m: SoftMask)
    ensures m.colorSpace == DeviceGray && m.decode == [0, 1] && m.parms.colors == Some(1)
    ensures m.height == height && m.width == width && m.bits == bits && m.data == alphaChannel
    ensures m.parms.predictor == PngPredictors && m.parms.bits == m.bits && m.parms.columns == m.width
  {
    SoftMask(height, width, bits, DeviceGray, [0, 1], alphaChannel,
             FlateParms(PngPredictors, Some(1), bits, width))
  }

  /** `build_pdf_object`: the attributes afterwards (the alpha split, once started, stays done
      even when a later check raises) and the image object, or the exception raised. */
  function PdfObject(s: Image): (r: (Image, Result<ImageObject, Error>))
    ensures r.0 == s || SplitAlpha(s) == Ok(r.0)
    ensures r.1.Ok? ==> SplitAlpha(s) == Ok(r.0) && r.1.value.data == r.0.imgData
    ensures r.1.Err? ==> r.1.error.UnsupportedImageType? || SplitAlpha(s) == Err(r.1.error)
  {
    var check := MethodCheck(s.compressionMethod, s.filterMethod, s.interlaceMethod);
    if check.Some? then (s, Err(UnsupportedImageType(check.value)))
    else
      match SplitAlpha(s)
      case Err(e) => (s, Err(e))
      case Ok(t) =>
        var colors := ColorsOf(t.colorType);
        var device := DeviceFor(colors);
        if device.None? then (t, Err(UnsupportedImageType(NumberOfColors)))
        else
          var smask := if HasAlphaChannel(t.colorType, t.transparency) then Some(SoftMaskFor(t.height, t.width, t.bits, t.alphaChannel)) else None;
          (t, Ok(ImageObject(t.height, t.width, t.bits, t.imgData,
                             FlateParms(PngPredictors, colors, t.bits, t.width),
                             ColorSpaceFor(t.palette, device.value), MaskFor(t.transparency), smask)))
  }

  /** The compression, filter and interlace methods are checked in that order, before any
      alpha splitting: a non-zero method raises and leaves the attributes untouched. */
  lemma ValidatedFirst(s: Image)
    ensures s.compressionMethod != Some(0) ==> PdfObject(s) == (s, Err(UnsupportedImageType(CompressionMethod)))
    ensures s.compressionMethod == Some(0) && s.filterMethod != Some(0) ==>
      PdfObject(s) == (s, Err(UnsupportedImageType(FilterMethod)))
    ensures s.compressionMethod == Some(0) && s.filterMethod == Some(0) && s.interlaceMethod != Some(0) ==>
      PdfObject(s) == (s, Err(UnsupportedImageType(InterlaceMethod)))
    ensures PdfObject(s).1.Ok? ==>
      s.compressionMethod == Some(0) && s.filterMethod == Some(0) && s.interlaceMethod == Some(0)
  {
  }

  /** What the image object holds: the (split) pixel stream with one-or-three-component
      Predictor 15 parameters; DeviceGray or DeviceRGB without a palette, otherwise an indexed
      space over RGB with the palette as lookup; the colour-key mask; and, exactly when the
      image has an alpha channel, a grey soft mask of the same size and depth, decoded over
      [0 1], over the alpha plane with one-component Predictor 15 parameters. */
  lemma PdfObjectContents(s: Image)
    requires PdfObject(s).1.Ok?
    ensures var (t, o) := (PdfObject(s).0, PdfObject(s).1.value);
      && o.height == s.height && o.width == s.width && o.bits == s.bits
      && o.parms == FlateParms(15, ColorsOf(s.colorType), s.bits, s.width)
      && (ColorsOf(s.colorType) == Some(1) || ColorsOf(s.colorType) == Some(3))
      && (|s.palette| == 0 && ColorsOf(s.colorType) == Some(1) ==> o.colorSpace == Device(DeviceGray))
      && (|s.palette| == 0 && ColorsOf(s.colorType) == Some(3) ==> o.colorSpace == Device(DeviceRGB))
      && (|s.palette| > 0 ==> o.colorSpace == Indexed(DeviceRGB, |s.palette| / 3 - 1, s.palette))
      && o.mask == MaskFor(s.transparency)
      && (o.smask.Some? <==> HasAlphaChannel(s.colorType, s.transparency))
      && (o.smask.Some? ==>
            && t.alphaChannel.Some?
            && o.smask.value == SoftMask(s.height, s.width, s.bits, DeviceGray, [0, 1], t.alphaChannel,
                                         FlateParms(15, Some(1), s.bits, s.width)))
  {
    SplitAlphaOutcome(s);
  }

  /** An image object with a soft mask never gets by with PDF 1.0: the version `min_pdf_version`
      reports for the attributes afterwards is 1.4 or later, or it raises on a nil bit depth. */
  lemma SoftMaskNeedsTransparency(s: Image)
    requires PdfObject(s).1.Ok? && PdfObject(s).1.value.smask.Some?
    ensures MinPdfVersion(PdfObject(s).0) != Ok(V1_0)
  {
    SplitAlphaOutcome(s);
  }

  /** An interleaved-alpha image that builds has its `img_data` replaced by the colour plane of
      its scanlines. */
  lemma PdfObjectSplitsColor(s: Image)
    requires PdfObject(s).1.Ok? && s.colorType.Some? && HasAlphaSample(s.colorType.value)
    ensures var b := s.bits.value;
      var cb := ColorsOf(s.colorType).value * b / 8;
      && s.imgData.InMemory? && s.width.Some? && s.height.Some?
      && PdfObject(s).1.value.data ==
           InMemory(SplitPlanes(s.imgData.bytes, s.width.value, s.height.value, cb, b / 8).0)
  {
  }

  // ---------------------------------------------------------------------------------------
  // The loops of split_image_data and generate_alpha_channel

  /** A zero-filled buffer of `len` bytes (`[0x00].pack('C') * len`) with nothing written yet. */
  method ZeroBuffer(len: nat) returns (buf: array<byte>)
    ensures fresh(buf) && buf.Length == len
    ensures buf[..] == [] + Zeros(len)
  {
    buf := new byte[len](_ => 0);
    assert buf[..] == Zeros(len);
  }

  /** The scanline loop of `split_image_data` over inflated data `img`: seek to each whole
      scanline, copy its filter byte to the colour and alpha buffers, then copy its pixels.
      Each buffer is created zero-filled at the size its StringIO reaches, the larger of the
      preallocation and the bytes written. */
  method SplitScanlines(img: seq<byte>, w: nat, h: nat, cb: nat, ab: nat)
    returns (color: seq<byte>, alpha: seq<byte>)
    ensures (color, alpha) == SplitPlanes(img, w, h, cb, ab)
  {
    var l := Mul(w, cb + ab) + 1;          // scanline_length
    var n := Scanlines(|img|, l);           // scanlines
    var pixels := Mul(w, h);
    color, alpha := SplitLines(img, w, cb + ab, cb, ab, n, Mul(pixels, cb) + n, Mul(pixels, ab) + n);
  }

  /** The two buffers, zero-filled at `colorMin` and `alphaMin` bytes or at the length of the
      plane written into each when that is larger, after the scanline loop. */
  method SplitLines(img: seq<byte>, w: nat, stride: nat, cb: nat, ab: nat, n: nat, colorMin: nat, alphaMin: nat)
    returns (color: seq<byte>, alpha: seq<byte>)
    requires stride == cb + ab && Mul(n, Mul(w, stride) + 1) <= |img|
    ensures color == Padded(Plane(img, w, stride, 0, cb, n), colorMin)
    ensures alpha == Padded(Plane(img, w, stride, cb, ab, n), alphaMin)
  {
    var colorBuf := ZeroBuffer(Max(colorMin, Mul(n, 1 + Mul(w, cb))));
    var alphaBuf := ZeroBuffer(Max(alphaMin, Mul(n, 1 + Mul(w, ab))));
    WriteLines(img, w, stride, cb, ab, n, colorBuf, alphaBuf);
    PaddedFill(Plane(img, w, stride, 0, cb, n), colorMin, colorBuf.Length);
    PaddedFill(Plane(img, w, stride, cb, ab, n), alphaMin, alphaBuf.Length);
    color, alpha := colorBuf[..], alphaBuf[..];
  }

  /** The `scanlines.times` loop over the first `n` scanlines, writing into zero-filled buffers
      long enough for both planes. */
  method WriteLines(img: seq<byte>, w: nat, stride: nat, cb: nat, ab: nat, n: nat,
                    colorBuf: array<byte>, alphaBuf: array<byte>)
    requires colorBuf != alphaBuf && stride == cb + ab && Mul(n, Mul(w, stride) + 1) <= |img|
    requires Mul(n, 1 + Mul(w, cb)) <= colorBuf.Length && colorBuf[..] == [] + Zeros(colorBuf.Length)
    requires Mul(n, 1 + Mul(w, ab)) <= alphaBuf.Length && alphaBuf[..] == [] + Zeros(alphaBuf.Length)
    modifies colorBuf, alphaBuf
    ensures colorBuf[..] == Plane(img, w, stride, 0, cb, n)
                              + Zeros(colorBuf.Length - |Plane(img, w, stride, 0, cb, n)|)
    ensures alphaBuf[..] == Plane(img, w, stride, cb, ab, n)
                              + Zeros(alphaBuf.Length - |Plane(img, w, stride, cb, ab, n)|)
  {
    var l := Mul(w, stride) + 1;
    var cpos, apos := 0, 0;
    ghost var cw: seq<byte>, aw: seq<byte> := [], [];
    for line := 0 to n
      invariant Mul(line, l) <= |img|
      invariant cw == Plane(img, w, stride, 0, cb, line) && aw == Plane(img, w, stride, cb, ab, line)
      invariant cpos == |cw| <= colorBuf.Length && apos == |aw| <= alphaBuf.Length
      invariant colorBuf[..] == cw + Zeros(colorBuf.Length - |cw|)
      invariant alphaBuf[..] == aw + Zeros(alphaBuf.Length - |aw|)
    {
      LineStep(line, n, l, |img|);
      LineStep(line, n, 1 + Mul(w, cb), colorBuf.Length);
      LineStep(line, n, 1 + Mul(w, ab), alphaBuf.Length);
      var base := Mul(line, l);             // data.seek(line * scanline_length)
      cpos, apos := SplitLine(img, w, stride, cb, ab, base, colorBuf, cw, cpos, alphaBuf, aw, apos);
      NextLine(img, w, stride, 0, cb, line, base, cw);
      NextLine(img, w, stride, cb, ab, line, base, aw);
      cw, aw := cw + Line(img, base, w, stride, 0, cb), aw + Line(img, base, w, stride, cb, ab);
    }
  }

  /** The offsets of scanline `line + 1` of `n` scanlines of `l` bytes in `len` bytes. */
  lemma LineStep(line: nat, n: nat, l: nat, len: nat)
    requires line < n && Mul(n, l) <= len
    ensures Mul(line + 1, l) == Mul(line, l) + l && Mul(line + 1, l) <= len
  {
    MulLe(line + 1, n, l);
    MulSucc(line, l);
  }

  /** One iteration of `scanlines.times`, for the scanline at `base`: `putc` its filter byte
      to both buffers, then copy its pixels. */
  method SplitLine(img: seq<byte>, w: nat, stride: nat, cb: nat, ab: nat, base: nat,
                   colorBuf: array<byte>, ghost cw: seq<byte>, cpos0: nat,
                   alphaBuf: array<byte>, ghost aw: seq<byte>, apos0: nat)
    returns (cpos: nat, apos: nat)
    requires colorBuf != alphaBuf && stride == cb + ab && base + 1 + Mul(w, stride) <= |img|
    requires cpos0 == |cw| && cpos0 + 1 + Mul(w, cb) <= colorBuf.Length
    requires apos0 == |aw| && apos0 + 1 + Mul(w, ab) <= alphaBuf.Length
    requires colorBuf[..] == cw + Zeros(colorBuf.Length - |cw|)
    requires alphaBuf[..] == aw + Zeros(alphaBuf.Length - |aw|)
    modifies colorBuf, alphaBuf
    ensures cpos == cpos0 + 1 + Mul(w, cb) && apos == apos0 + 1 + Mul(w, ab)
    ensures colorBuf[..] == (cw + Line(img, base, w, stride, 0, cb)) + Zeros(colorBuf.Length - cpos)
    ensures alphaBuf[..] == (aw + Line(img, base, w, stride, cb, ab)) + Zeros(alphaBuf.Length - apos)
  {
    var filter := img[base];                     // data.getbyte
    Append(colorBuf, cw, cpos0, [filter]);
    Append(alphaBuf, aw, apos0, [filter]);
    cpos, apos := CopyPixels(img, base, w, stride, cb, ab, colorBuf, cw + [filter], cpos0 + 1,
                             alphaBuf, aw + [filter], apos0 + 1);
    LineAfter(img, base, w, stride, 0, cb, cw);
    LineAfter(img, base, w, stride, cb, ab, aw);
  }

  /** A scanline's filter byte followed by its pixels' selected bytes is its output scanline. */
  lemma LineAfter(img: seq<byte>, base: nat, w: nat, stride: nat, off: nat, size: nat, written: seq<byte>)
    requires off + size <= stride && base + 1 + Mul(w, stride) <= |img|
    ensures (written + [img[base]]) + Cells(img, base + 1, w, stride, off, size)
              == written + Line(img, base, w, stride, off, size)
  {
  }

  /** The output scanlines so far followed by the next output scanline are the output
      scanlines one further on. */
  lemma NextLine(img: seq<byte>, w: nat, stride: nat, off: nat, size: nat, line: nat, base: nat,
                 written: seq<byte>)
    requires off + size <= stride && Mul(line + 1, Mul(w, stride) + 1) <= |img|
    requires base == Mul(line, Mul(w, stride) + 1) && base + Mul(w, stride) + 1 <= |img|
    requires written == Plane(img, w, stride, off, size, line)
    ensures written + Line(img, base, w, stride, off, size) == Plane(img, w, stride, off, size, line + 1)
  {
  }

  /** The `width.times` loop of one scanline, from the cursor after its filter byte at `base`:
      each pixel's colour bytes go to the colour buffer and its alpha bytes to the alpha
      buffer. */
  method CopyPixels(img: seq<byte>, base: nat, w: nat, stride: nat, cb: nat, ab: nat,
                    colorBuf: array<byte>, ghost cw0: seq<byte>, cpos0: nat,
                    alphaBuf: array<byte>, ghost aw0: seq<byte>, apos0: nat)
    returns (cpos: nat, apos: nat)
    requires colorBuf != alphaBuf && stride == cb + ab && base + 1 + Mul(w, stride) <= |img|
    requires cpos0 == |cw0| && cpos0 + Mul(w, cb) <= colorBuf.Length
    requires apos0 == |aw0| && apos0 + Mul(w, ab) <= alphaBuf.Length
    requires colorBuf[..] == cw0 + Zeros(colorBuf.Length - |cw0|)
    requires alphaBuf[..] == aw0 + Zeros(alphaBuf.Length - |aw0|)
    modifies colorBuf, alphaBuf
    ensures cpos == cpos0 + Mul(w, cb) && apos == apos0 + Mul(w, ab)
    ensures colorBuf[..] == (cw0 + Cells(img, base + 1, w, stride, 0, cb)) + Zeros(colorBuf.Length - cpos)
    ensures alphaBuf[..] == (aw0 + Cells(img, base + 1, w, stride, cb, ab)) + Zeros(alphaBuf.Length - apos)
  {
    var pos := base + 1;
    cpos, apos := cpos0, apos0;
    ghost var cw, aw := cw0, aw0;
    for p := 0 to w
      invariant Mul(p, stride) <= Mul(w, stride) && pos == base + 1 + Mul(p, stride)
      invariant Mul(p, cb) <= Mul(w, cb) && Mul(p, ab) <= Mul(w, ab)
      invariant cw == cw0 + Cells(img, base + 1, p, stride, 0, cb) && cpos == |cw|
      invariant aw == aw0 + Cells(img, base + 1, p, stride, cb, ab) && apos == |aw|
      invariant colorBuf[..] == cw + Zeros(colorBuf.Length - |cw|)
      invariant alphaBuf[..] == aw + Zeros(alphaBuf.Length - |aw|)
    {
      PixelStep(p, w, stride, cb, ab);
      cpos, apos, cw, aw := CopyPixel(img, base, p, w, stride, cb, ab, pos,
                                      colorBuf, cw0, cw, cpos, alphaBuf, aw0, aw, apos);
      pos := pos + stride;
    }
  }

  /** Pixel `p` of the scanline whose filter byte is at `base`, with the data cursor at `pos`:
      `color.write data.read(color_bytes)`, then `alpha.write data.read(alpha_bytes)`. */
  method CopyPixel(img: seq<byte>, base: nat, p: nat, w: nat, stride: nat, cb: nat, ab: nat, pos: nat,
                   colorBuf: array<byte>, ghost cw0: seq<byte>, ghost cw: seq<byte>, cpos0: nat,
                   alphaBuf: array<byte>, ghost aw0: seq<byte>, ghost aw: seq<byte>, apos0: nat)
    returns (cpos: nat, apos: nat, ghost cw': seq<byte>, ghost aw': seq<byte>)
    requires colorBuf != alphaBuf && stride == cb + ab && base + 1 + Mul(w, stride) <= |img|
    requires Mul(p + 1, stride) == Mul(p, stride) + stride && Mul(p + 1, stride) <= Mul(w, stride)
    requires Mul(p + 1, cb) == Mul(p, cb) + cb && Mul(p + 1, cb) <= Mul(w, cb)
    requires Mul(p + 1, ab) == Mul(p, ab) + ab && Mul(p + 1, ab) <= Mul(w, ab)
    requires pos == base + 1 + Mul(p, stride)
    requires cw == cw0 + Cells(img, base + 1, p, stride, 0, cb) && cpos0 == |cw|
    requires aw == aw0 + Cells(img, base + 1, p, stride, cb, ab) && apos0 == |aw|
    requires |cw0| + Mul(w, cb) <= colorBuf.Length && |aw0| + Mul(w, ab) <= alphaBuf.Length
    requires colorBuf[..] == cw + Zeros(colorBuf.Length - |cw|)
    requires alphaBuf[..] == aw + Zeros(alphaBuf.Length - |aw|)
    modifies colorBuf, alphaBuf
    ensures cw' == cw0 + Cells(img, base + 1, p + 1, stride, 0, cb) && cpos == |cw'|
    ensures aw' == aw0 + Cells(img, base + 1, p + 1, stride, cb, ab) && apos == |aw'|
    ensures colorBuf[..] == cw' + Zeros(colorBuf.Length - |cw'|)
    ensures alphaBuf[..] == aw' + Zeros(alphaBuf.Length - |aw'|)
  {
    cpos, cw' := CopyCell(img, base + 1, p, w, stride, 0, cb, pos, colorBuf, cw0, cw, cpos0);
    apos, aw' := CopyCell(img, base + 1, p, w, stride, cb, ab, pos + cb, alphaBuf, aw0, aw, apos0);
  }

  /** One `data.read(size)` of pixel `p` at offset `off` in its cell, written to `buf`. */
  method CopyCell(img: seq<byte>, start: nat, p: nat, w: nat, stride: nat, off: nat, size: nat, pos: nat,
                  buf: array<byte>, ghost before: seq<byte>, ghost written: seq<byte>, at0: nat)
    returns (at: nat, ghost written': seq<byte>)
    requires off + size <= stride && start + Mul(w, stride) <= |img|
    requires Mul(p + 1, stride) == Mul(p, stride) + stride && Mul(p + 1, stride) <= Mul(w, stride)
    requires Mul(p + 1, size) == Mul(p, size) + size && Mul(p + 1, size) <= Mul(w, size)
    requires pos == start + Mul(p, stride) + off
    requires written == before + Cells(img, start, p, stride, off, size) && at0 == |written|
    requires |before| + Mul(w, size) <= buf.Length
    requires buf[..] == written + Zeros(buf.Length - |written|)
    modifies buf
    ensures written' == before + Cells(img, start, p + 1, stride, off, size) && at == |written'|
    ensures buf[..] == written' + Zeros(buf.Length - |written'|)
  {
    var bytes := img[pos..pos + size];  // data.read(size)
    CellsStep(img, start, p, stride, off, size, pos, before, written);
    Append(buf, written, at0, bytes);
    at, written' := at0 + size, written + bytes;
  }

  /** The offsets of pixel `p + 1` of a scanline of `w` pixels follow those of pixel `p`. */
  lemma PixelStep(p: nat, w: nat, stride: nat, cb: nat, ab: nat)
    requires p < w
    ensures Mul(p + 1, stride) == Mul(p, stride) + stride && Mul(p + 1, stride) <= Mul(w, stride)
    ensures Mul(p + 1, cb) == Mul(p, cb) + cb && Mul(p + 1, cb) <= Mul(w, cb)
    ensures Mul(p + 1, ab) == Mul(p, ab) + ab && Mul(p + 1, ab) <= Mul(w, ab)
  {
    MulLe(p + 1, w, stride);
    MulSucc(p, stride);
    MulLe(p + 1, w, cb);
    MulSucc(p, cb);
    MulLe(p + 1, w, ab);
    MulSucc(p, ab);
  }

  /** One more pixel's selected bytes, read at `pos`, extend the selection of the first `p`. */
  lemma CellsStep(img: seq<byte>, start: nat, p: nat, stride: nat, off: nat, size: nat, pos: nat,
                  before: seq<byte>, written: seq<byte>)
    requires off + size <= stride && start + Mul(p + 1, stride) <= |img|
    requires Mul(p + 1, stride) == Mul(p, stride) + stride && pos == start + Mul(p, stride) + off
    requires written == before + Cells(img, start, p, stride, off, size)
    ensures written + img[pos..pos + size] == before + Cells(img, start, p + 1, stride, off, size)
  {
  }

  /** The `alpha_palette` table: `0.upto(palette.bytesize / 3)` sets each index to its tRNS
      alpha, or 0xFF where the tRNS payload is too short. Looked up with the 0xFF default, it
      gives every palette index its alpha. */
  method AlphaTable(palLen: nat, trns: seq<byte>) returns (table: map<nat, byte>)
    ensures forall i: nat :: i in table <==> i <= palLen / 3
    ensures forall i: nat :: Lookup(table, i) == PaletteAlpha(palLen, trns, i)
  {
    table := map[];
    for n := 0 to palLen / 3 + 1
      invariant forall i: nat :: i in table <==> i < n
      invariant forall i: nat :: i in table ==> table[i] == PaletteAlpha(palLen, trns, i)
    {
      table := table[n := if n < |trns| then trns[n] else 0xFF];
    }
  }

  /** `generate_alpha_channel`'s scanline loop over inflated indices `img`, with the table
      `AlphaTable` builds for a palette of `palLen` bytes and tRNS alphas `trns`. */
  method GenerateScanlines(img: seq<byte>, w: nat, h: nat, table: map<nat, byte>,
                           ghost palLen: nat, ghost trns: seq<byte>)
    returns (alpha: seq<byte>)
    requires forall i: nat :: Lookup(table, i) == PaletteAlpha(palLen, trns, i)
    ensures alpha == IndexedAlpha(img, w, h, palLen, trns)
  {
    var l := w + 1;                        // scanline_length
    var n := Scanlines(|img|, l);           // scanlines
    var pixels := Mul(w, h);
    alpha := AlphaLines(img, w, n, table, palLen, trns, pixels + n);
  }

  /** The alpha buffer, zero-filled at `alphaMin` bytes or at the length of the alpha plane when
      that is larger, after the scanline loop. */
  method AlphaLines(img: seq<byte>, w: nat, n: nat, table: map<nat, byte>,
                    ghost palLen: nat, ghost trns: seq<byte>, alphaMin: nat)
    returns (alpha: seq<byte>)
    requires Mul(n, w + 1) <= |img|
    requires forall i: nat :: Lookup(table, i) == PaletteAlpha(palLen, trns, i)
    ensures alpha == Padded(AlphaPlane(img, w, n, palLen, trns), alphaMin)
  {
    var buf := ZeroBuffer(Max(alphaMin, Mul(n, w + 1)));
    WriteAlphaLines(img, w, n, table, palLen, trns, buf);
    PaddedFill(AlphaPlane(img, w, n, palLen, trns), alphaMin, buf.Length);
    alpha := buf[..];
  }

  /** The `scanlines.times` loop of generate_alpha_channel, writing into a zero-filled buffer
      long enough for the alpha plane. */
  method WriteAlphaLines(img: seq<byte>, w: nat, n: nat, table: map<nat, byte>,
                         ghost palLen: nat, ghost trns: seq<byte>, buf: array<byte>)
    requires Mul(n, w + 1) <= |img| && Mul(n, w + 1) <= buf.Length
    requires forall i: nat :: Lookup(table, i) == PaletteAlpha(palLen, trns, i)
    requires buf[..] == [] + Zeros(buf.Length)
    modifies buf
    ensures buf[..] == AlphaPlane(img, w, n, palLen, trns)
                         + Zeros(buf.Length - |AlphaPlane(img, w, n, palLen, trns)|)
  {
    var apos := 0;
    ghost var aw: seq<byte> := [];
    for line := 0 to n
      invariant Mul(line, w + 1) <= |img|
      invariant aw == AlphaPlane(img, w, line, palLen, trns)
      invariant apos == |aw| <= buf.Length
      invariant buf[..] == aw + Zeros(buf.Length - |aw|)
    {
      LineStep(line, n, w + 1, |img|);
      LineStep(line, n, w + 1, buf.Length);
      var base := Mul(line, w + 1);         // data.seek(line * scanline_length)
      apos := WriteAlphaLine(img, w, base, table, palLen, trns, buf, aw, apos);
      NextAlphaLine(img, w, line, base, palLen, trns, aw);
      aw := aw + AlphaLine(img, base, w, palLen, trns);
    }
  }

  /** The alpha scanlines so far followed by the next alpha scanline are the alpha scanlines
      one further on. */
  lemma NextAlphaLine(img: seq<byte>, w: nat, line: nat, base: nat, palLen: nat, trns: seq<byte>,
                      written: seq<byte>)
    requires Mul(line + 1, w + 1) <= |img|
    requires base == Mul(line, w + 1) && base + 1 + w <= |img|
    requires written == AlphaPlane(img, w, line, palLen, trns)
    ensures written + AlphaLine(img, base, w, palLen, trns) == AlphaPlane(img, w, line + 1, palLen, trns)
  {
  }

  /** One iteration of `scanlines.times`, for the scanline at `base`: `putc` its filter byte,
      then the alphas of the `width` indices that follow. */
  method WriteAlphaLine(img: seq<byte>, w: nat, base: nat, table: map<nat, byte>,
                    ghost palLen: nat, ghost trns: seq<byte>,
                    buf: array<byte>, ghost aw: seq<byte>, apos0: nat)
    returns (apos: nat)
    requires base + 1 + w <= |img| && apos0 == |aw| && apos0 + 1 + w <= buf.Length
    requires forall i: nat :: Lookup(table, i) == PaletteAlpha(palLen, trns, i)
    requires buf[..] == aw + Zeros(buf.Length - |aw|)
    modifies buf
    ensures apos == apos0 + 1 + w
    ensures buf[..] == (aw + AlphaLine(img, base, w, palLen, trns)) + Zeros(buf.Length - apos)
  {
    var filter := img[base];                // data.getbyte
    Append(buf, aw, apos0, [filter]);
    apos := AlphaPixels(img, w, base, table, palLen, trns, buf, aw + [filter], apos0 + 1);
    assert (aw + [img[base]]) + Alphas(img[base + 1..base + 1 + w], palLen, trns)
        == aw + AlphaLine(img, base, w, palLen, trns);
  }

  /** `width.times { alpha.putc alpha_palette[data.read(1).unpack1('C')] }` for the scanline at
      `base`: the alphas of its indices extend what the buffer holds. */
  method AlphaPixels(img: seq<byte>, w: nat, base: nat, table: map<nat, byte>,
                     ghost palLen: nat, ghost trns: seq<byte>,
                     buf: array<byte>, ghost before: seq<byte>, apos0: nat)
    returns (apos: nat)
    requires base + 1 + w <= |img| && apos0 == |before| && apos0 + w <= buf.Length
    requires forall i: nat :: Lookup(table, i) == PaletteAlpha(palLen, trns, i)
    requires buf[..] == before + Zeros(buf.Length - |before|)
    modifies buf
    ensures apos == apos0 + w
    ensures buf[..] == (before + Alphas(img[base + 1..base + 1 + w], palLen, trns)) + Zeros(buf.Length - apos)
  {
    var pos := base + 1;
    apos := apos0;
    ghost var written := before;
    assert img[base + 1..base + 1] == [];
    for p := 0 to w
      invariant pos == base + 1 + p && apos == apos0 + p && apos == |written|
      invariant written == before + Alphas(img[base + 1..base + 1 + p], palLen, trns)
      invariant buf[..] == written + Zeros(buf.Length - |written|)
    {
      assert Lookup(table, img[pos]) == PaletteAlpha(palLen, trns, img[pos]);
      apos, written := AppendAlpha(img, base, p, pos, table, palLen, trns, buf, before, written, apos);
      pos := pos + 1;
    }
  }

  /** One index of a scanline: read it and `putc` its alpha. */
  method AppendAlpha(img: seq<byte>, base: nat, p: nat, pos: nat, table: map<nat, byte>,
                     ghost palLen: nat, ghost trns: seq<byte>,
                     buf: array<byte>, ghost before: seq<byte>, ghost written: seq<byte>, apos0: nat)
    returns (apos: nat, ghost written': seq<byte>)
    requires pos == base + 1 + p && pos < |img| && apos0 == |written| && apos0 < buf.Length
    requires Lookup(table, img[pos]) == PaletteAlpha(palLen, trns, img[pos])
    requires written == before + Alphas(img[base + 1..base + 1 + p], palLen, trns)
    requires buf[..] == written + Zeros(buf.Length - |written|)
    modifies buf
    ensures apos == apos0 + 1 && apos == |written'|
    ensures written' == before + Alphas(img[base + 1..base + 2 + p], palLen, trns)
    ensures buf[..] == written' + Zeros(buf.Length - |written'|)
  {
    var color := img[pos];                  // data.read(1).unpack1('C')
    var a := Lookup(table, color);          // alpha_palette[color]
    Append(buf, written, apos0, [a]);
    apos := apos0 + 1;
    AlphaStep(img, base, p, palLen, trns, before, written);
    written' := written + [a];
  }

  /** One more palette index, read after the first `p` of a scanline, extends their alphas. */
  lemma AlphaStep(img: seq<byte>, base: nat, p: nat, palLen: nat, trns: seq<byte>,
                  before: seq<byte>, written: seq<byte>)
    requires base + 2 + p <= |img|
    requires written == before + Alphas(img[base + 1..base + 1 + p], palLen, trns)
    ensures written + [PaletteAlpha(palLen, trns, img[base + 1 + p])]
              == before + Alphas(img[base + 1..base + 2 + p], palLen, trns)
  {
    assert img[base + 1..base + 2 + p] == img[base + 1..base + 1 + p] + [img[base + 1 + p]];
    AlphasSnoc(img[base + 1..base + 1 + p], img[base + 1 + p], palLen, trns);
  }

  // ---------------------------------------------------------------------------------------
  // The PNG object

  class PNG {
    var palette: seq<byte>
    var imgData: ImageData
    var transparency: Transparency
    var width: Option<nat>
    var height: Option<nat>
    var bits: Option<nat>
    var colorType: Option<nat>
    var compressionMethod: Option<nat>
    var filterMethod: Option<nat>
    var interlaceMethod: Option<nat>
    var alphaChannel: Option<seq<byte>>

    ghost function State(): Image
      reads this
    {
      Image(palette, imgData, transparency, width, height, bits, colorType,
            compressionMethod, filterMethod, interlaceMethod, alphaChannel)
    }

    /** `initialize` given the loader's results: the attributes are copied from them, and
        `img_data` is the in-memory pixel data or the file the worker process wrote. */
    constructor (results: Loaded, pixels: ImageData)
      ensures State() == FromResults(results, pixels)
    {
      palette, imgData, transparency := results.palette, pixels, results.transparency;
      width, height, bits, colorType := results.width, results.height, results.bits, results.colorType;
      compressionMethod, filterMethod := results.compressionMethod, results.filterMethod;
      interlaceMethod := results.interlaceMethod;
      alphaChannel := None;
    }

    /** `PNG.new(data)` for an in-memory blob: a DataLoader over a copy of `data` is called and
        the PNG takes its results, with the inflated scanlines as `img_data`. The caller's
        bytes are left as they were. */
    static method Open(data: array<byte>, inflate: seq<byte> -> Option<seq<byte>>)
      returns (r: Result<PNG, Error>)
      ensures data[..] == old(data[..])
      ensures match LoadFrom(old(data[..]), Unset, inflate)
        case Err(e) => r == Err(e)
        case Ok(l) => r.Ok? && fresh(r.value) && r.value.State() == FromResults(l, InMemory(l.imgData))
    {
      var loader := new DataLoader(data);
      var results := loader.Call(inflate);
      if results.Err? {
        return Err(results.error);
      }
      var png := new PNG(results.value, InMemory(results.value.imgData));
      return Ok(png);
    }

    /** `split_image_data`. */
    method SplitImageData() returns (o: Outcome<Error>)
      modifies this
      ensures match Split(old(State()))
        case Ok(t) => o == Pass && State() == t
        case Err(e) => o == Fail(e) && State() == old(State())
    {
      if imgData.FileBacked? {
        return Fail(NotInMemory);
      }
      if bits.None? {
        return Fail(NilField);
      }
      var alphaBytes := bits.value / 8;
      var colors := ColorsOf(colorType);
      if colors.None? {
        return Fail(NilField);
      }
      var colorBytes := colors.value * bits.value / 8;
      if width.None? || height.None? {
        return Fail(NilField);
      }
      var color, alpha := SplitScanlines(imgData.bytes, width.value, height.value, colorBytes, alphaBytes);
      alphaChannel := Some(alpha);
      imgData := InMemory(color);
      return Pass;
    }

    /** `generate_alpha_channel`. */
    method GenerateAlphaChannel() returns (o: Outcome<Error>)
      modifies this
      ensures match Generate(old(State()))
        case Ok(t) => o == Pass && State() == t
        case Err(e) => o == Fail(e) && State() == old(State())
    {
      if imgData.FileBacked? {
        return Fail(NotInMemory);
      }
      if !transparency.Palette? {
        return Fail(NoPaletteTable);
      }
      var table := AlphaTable(|palette|, transparency.alphas);
      if width.None? || height.None? {
        return Fail(NilField);
      }
      var alpha := GenerateScanlines(imgData.bytes, width.value, height.value, table,
                                     |palette|, transparency.alphas);
      alphaChannel := Some(alpha);
      return Pass;
    }

    /** `split_alpha_channel!`. */
    method SplitAlphaChannel() returns (o: Outcome<Error>)
      modifies this
      ensures match SplitAlpha(old(State()))
        case Ok(t) => o == Pass && State() == t
        case Err(e) => o == Fail(e) && State() == old(State())
    {
      if HasAlphaChannel(colorType, transparency) {
        if colorType == Some(3) {
          o := GenerateAlphaChannel();
        } else {
          o := SplitImageData();
        }
      } else {
        o := Pass;
      }
    }

    /** `build_pdf_object`: the image object's decision values, built up as the source adds
        entries to `obj.data`. */
    method BuildPdfObject() returns (r: Result<ImageObject, Error>)
      modifies this
      ensures (State(), r) == PdfObject(old(State()))
    {
      var check := MethodCheck(compressionMethod, filterMethod, interlaceMethod);
      if check.Some? {
        return Err(UnsupportedImageType(check.value));
      }
      var split := SplitAlphaChannel();
      if split.Fail? {
        return Err(split.error);
      }
      var colors := ColorsOf(colorType);
      var device := DeviceFor(colors);
      if device.None? {
        return Err(UnsupportedImageType(NumberOfColors));
      }
      var obj := ImageObject(height, width, bits, imgData,
                             FlateParms(PngPredictors, colors, bits, width),
                             Device(device.value), None, None);
      obj := obj.(colorSpace := ColorSpaceFor(palette, device.value));
      obj := obj.(mask := MaskFor(transparency));
      if HasAlphaChannel(colorType, transparency) {
        obj := obj.(smask := Some(SoftMaskFor(height, width, bits, alphaChannel)));
      }
      return Ok(obj);
    }
  }
}
