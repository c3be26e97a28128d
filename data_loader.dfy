/** Prawn::Images::PNGHelpers::DataLoader: walks the chunk stream of a PNG file, collecting the
    IHDR fields, the PLTE and IDAT payloads and the tRNS transparency. */
module PngHelpers {
  import opened Wrappers
  import opened Errors
  import opened Bytes
  import opened Unpacking
  import opened StringIo

  /** Chunk type tags, as the four ASCII bytes of their names. */
  const IHDR: seq<byte> := [0x49, 0x48, 0x44, 0x52]
  const PLTE: seq<byte> := [0x50, 0x4C, 0x54, 0x45]
  const IDAT: seq<byte> := [0x49, 0x44, 0x41, 0x54]
  const TRNS: seq<byte> := [0x74, 0x52, 0x4E, 0x53]
  const IEND: seq<byte> := [0x49, 0x45, 0x4E, 0x44]

  /** The `@transparency` hash: `{}`, `{palette: [...]}`, `{grayscale: v}` or `{rgb: [r, g, b]}`.
      A key value is nil when the tRNS payload is too short to hold it. */
  datatype Transparency =
    | Empty
    | Palette(alphas: seq<byte>)
    | Gray(key: Option<nat>)
    | Rgb(keys: seq<Option<nat>>)

  /** The loader's instance fields, and the hash `call` returns. A header field is nil until an
      IHDR chunk whose payload is long enough sets it. */
  datatype Loaded = Loaded(
    palette: seq<byte>,
    imgData: seq<byte>,
    transparency: Transparency,
    width: Option<nat>,
    height: Option<nat>,
    bits: Option<nat>,
    colorType: Option<nat>,
    compressionMethod: Option<nat>,
    filterMethod: Option<nat>,
    interlaceMethod: Option<nat>)

  /** The fields of a loader that has not run yet. */
  const Unset: Loaded := Loaded([], [], Empty, None, None, None, None, None, None, None)

  /** tRNS is read only for greyscale (0), truecolour (2) and indexed (3) images. */
  predicate ReadsTrns(colorType: Option<nat>)
  {
    colorType == Some(0) || colorType == Some(2) || colorType == Some(3)
  }

  /** The transparency a tRNS payload gives for the current colour type: the palette alphas
      are every payload byte (`unpack('C*')`), the grey key is nil for a payload shorter than
      two bytes, and there are always three RGB keys. The table is never empty afterwards. */
  function TrnsFor(colorType: Option<nat>, payload: seq<byte>): (r: Transparency)
    requires ReadsTrns(colorType)
    ensures r != Empty
    ensures r.Palette? <==> colorType == Some(3)
    ensures r.Palette? ==> r.alphas == payload
    ensures r.Gray? <==> colorType == Some(0)
    ensures r.Gray? ==> (r.key.Some? <==> |payload| >= 2)
    ensures r.Rgb? ==> |r.keys| == 3
  {
    if colorType == Some(3) then Palette(payload)
    else if colorType == Some(0) then Gray(Unpack1(UInt16BE, payload))
    else Rgb(Unpack(RgbFormat, payload))
  }

  /** The chunk types whose payload the loop reads with `data.read(chunk_size)`. */
  predicate ReadsPayload(kind: seq<byte>, st: Loaded)
  {
    kind == IHDR || kind == PLTE || kind == IDAT || (kind == TRNS && ReadsTrns(st.colorType))
  }

  /** The fields with the seven header values `unpack('NNCCCCC')` gave, in IHDR order. */
  function WithHeader(st: Loaded, f: seq<Option<nat>>): (r: Loaded)
    requires |f| == 7
    ensures r.palette == st.palette && r.imgData == st.imgData && r.transparency == st.transparency
  {
    st.(width := f[0], height := f[1], bits := f[2], colorType := f[3],
        compressionMethod := f[4], filterMethod := f[5], interlaceMethod := f[6])
  }

  /** The seven IHDR fields of a and b agree. */
  predicate SameHeader(a: Loaded, b: Loaded)
  {
    && a.width == b.width && a.height == b.height && a.bits == b.bits && a.colorType == b.colorType
    && a.compressionMethod == b.compressionMethod && a.filterMethod == b.filterMethod
    && a.interlaceMethod == b.interlaceMethod
  }

  /** What a payload-reading chunk does to the fields: only IHDR touches the header, PLTE and
      IDAT extend the palette and the image data by the payload, and only tRNS touches the
      transparency. */
  function Interpret(kind: seq<byte>, payload: seq<byte>, st: Loaded): (r: Loaded)
    requires ReadsPayload(kind, st)
    ensures kind != IHDR ==> SameHeader(r, st)
    ensures r.palette == st.palette + (if kind == PLTE then payload else [])
    ensures r.imgData == st.imgData + (if kind == IDAT then payload else [])
    ensures kind != TRNS ==> r.transparency == st.transparency
  {
    if kind == IHDR then WithHeader(st, Unpack(IhdrFormat, payload))
    else if kind == PLTE then st.(palette := st.palette + payload)
    else if kind == IDAT then st.(imgData := st.imgData + payload)
    else st.(transparency := TrnsFor(st.colorType, payload))
  }

  /** The dispatch of one loop iteration on a chunk type other than IEND, from the cursor after
      the type to the cursor before the CRC: the new fields (None when a read returned nil and the
      loop raised) and the new cursor. A tRNS chunk for another colour type empties the
      transparency without reading its payload; an unknown chunk is skipped with `seek`. */
  function Body(data: seq<byte>, pos: nat, kind: Option<seq<byte>>, size: nat, st: Loaded): (r: (Option<Loaded>, nat))
    ensures pos <= r.1
    ensures r.0.None? ==> kind.Some? && ReadsPayload(kind.value, st) && size > 0 && pos >= |data|
    ensures r.0.Some? && kind != Some(IHDR) ==> SameHeader(r.0.value, st)
    ensures r.0.Some? && kind != Some(PLTE) ==> r.0.value.palette == st.palette
    ensures r.0.Some? && kind != Some(IDAT) ==> r.0.value.imgData == st.imgData
    ensures r.0.Some? && kind != Some(TRNS) ==> r.0.value.transparency == st.transparency
  {
    if kind.Some? && ReadsPayload(kind.value, st) then
      var (payload, p) := Read(data, pos, size);
      if payload.None? then (None, p) else (Some(Interpret(kind.value, payload.value, st)), p)
    else if kind == Some(TRNS) then (Some(st.(transparency := Empty)), pos)
    else (Some(st), pos + size)
  }

  /** Where one iteration of the chunk loop leaves the loader. */
  datatype Next = Continue(pos: nat, st: Loaded) | Done(st: Loaded) | Abort(error: Error)

  /** One iteration of the `loop do` in load_data, started at cursor `pos` with fields `st`.
      Every iteration that continues started before the end and moved the cursor forward. */
  function Step(data: seq<byte>, pos: nat, st: Loaded): (r: Next)
    ensures r.Continue? ==> pos < |data| && pos < r.pos
    ensures r.Done? ==> r.st == st && TagAt(data, pos + 4, IEND)
    ensures r.Abort? ==> r.error == MalformedImage
  {
    var (len, p1) := Read(data, pos, 4);
    if len.None? then Abort(MalformedImage)
    else
      var size := Unpack1(UInt32BE, len.value);
      // A short length means the end was reached; the type read then gives nil, which falls
      // to the skip branch, and `data.pos + nil` raises.
      if size.None? then Abort(MalformedImage)
      else
        var (kind, p2) := Read(data, p1, 4);
        if kind == Some(IEND) then Done(st)
        else
          var (next, p3) := Body(data, p2, kind, size.value, st);
          if next.None? then Abort(MalformedImage)
          else Continue(Read(data, p3, 4).1, next.value)
  }

  /** `tag` occurs in `data` at offset i. */
  predicate TagAt(data: seq<byte>, i: nat, tag: seq<byte>)
  {
    i + |tag| <= |data| && data[i..i + |tag|] == tag
  }

  /** The whole chunk loop from cursor `pos`: the fields at IEND, or the exception raised.
      The loop only finishes successfully where an IEND type tag stands in the stream. */
  function Walk(data: seq<byte>, pos: nat, st: Loaded): (r: Result<Loaded, Error>)
    ensures r.Ok? ==> exists i :: pos + 4 <= i && TagAt(data, i, IEND)
    ensures r.Err? ==> r.error == MalformedImage
    decreases |data| - pos
  {
    match Step(data, pos, st)
    case Done(s) => Ok(s)
    case Abort(e) => Err(e)
    case Continue(p, s) => Walk(data, p, s)
  }

  /** The fields at the start of the chunk loop: palette, image data and transparency emptied,
      header fields as they were. */
  function Reset(prior: Loaded): Loaded
  {
    prior.(palette := [], imgData := [], transparency := Empty)
  }

  /** load_data followed by call on a loader whose fields were `prior`: skip the 8-byte signature,
      reset palette, image data and transparency (the header fields are kept), run the loop,
      then inflate the concatenated IDAT bytes. `inflate` stands for Zlib::Inflate.inflate and
      gives None where Zlib raises. */
  function LoadFrom(data: seq<byte>, prior: Loaded, inflate: seq<byte> -> Option<seq<byte>>): (r: Result<Loaded, Error>)
    ensures r.Err? ==> r.error == MalformedImage || r.error == InflateFailed
    ensures r.Ok? ==>
      var w := Walk(data, Read(data, 0, 8).1, Reset(prior));
      w.Ok? && inflate(w.value.imgData) == Some(r.value.imgData) && r.value == w.value.(imgData := r.value.imgData)
  {
    var start := Read(data, 0, 8).1;
    match Walk(data, start, Reset(prior))
    case Err(e) => Err(e)
    case Ok(st) =>
      match inflate(st.imgData)
      case None => Err(InflateFailed)
      case Some(raw) => Ok(st.(imgData := raw))
  }

  class DataLoader {
    /** The duplicate of the caller's bytes that `@data`'s StringIO reads. */
    const data: seq<byte>
    /** The StringIO cursor. */
    var pos: nat
    var palette: seq<byte>
    var imgData: seq<byte>
    var transparency: Transparency
    var width: Option<nat>
    var height: Option<nat>
    var bits: Option<nat>
    var colorType: Option<nat>
    var compressionMethod: Option<nat>
    var filterMethod: Option<nat>
    var interlaceMethod: Option<nat>

    ghost function State(): Loaded
      reads this
    {
      Loaded(palette, imgData, transparency, width, height, bits, colorType,
             compressionMethod, filterMethod, interlaceMethod)
    }

    /** `DataLoader.new(data:)`: the loader keeps a copy of the caller's buffer, which nothing
        here can modify. */
    constructor (input: array<byte>)
      ensures data == input[..] && pos == 0 && State() == Unset
    {
      data := input[..];
      pos := 0;
      palette, imgData, transparency := [], [], Empty;
      width, height, bits, colorType := None, None, None, None;
      compressionMethod, filterMethod, interlaceMethod := None, None, None;
    }

    /** `call`: run load_data and return the fields. */
    method Call(inflate: seq<byte> -> Option<seq<byte>>) returns (r: Result<Loaded, Error>)
      modifies this
      ensures r == LoadFrom(data, old(State()), inflate)
      ensures r.Ok? ==> State() == r.value
    {
      var o := LoadData(inflate);
      if o.Fail? {
        return Err(o.error);
      }
      return Ok(Loaded(palette, imgData, transparency, width, height, bits, colorType,
                       compressionMethod, filterMethod, interlaceMethod));
    }

    /** `load_data`: the chunk loop over `data`, then inflation of the IDAT bytes. */
    method LoadData(inflate: seq<byte> -> Option<seq<byte>>) returns (o: Outcome<Error>)
      modifies this
      ensures var r := LoadFrom(data, old(State()), inflate);
        (o.Pass? <==> r.Ok?) && (o.Fail? ==> r == Err(o.error)) && (r.Ok? ==> State() == r.value)
    {
      pos := 0;
      var signature := Read(data, pos, 8);  // skipped, never checked
      pos := signature.1;
      palette, imgData, transparency := [], [], Empty;
      assert State() == Reset(old(State()));
      o := ChunkLoop();
      if o.Fail? {
        return;
      }
      var raw := inflate(imgData);
      if raw.None? {
        return Fail(InflateFailed);
      }
      imgData := raw.value;
      return Pass;
    }

    /** The `loop do` of load_data, from the current cursor and fields until IEND. */
    method ChunkLoop() returns (o: Outcome<Error>)
      modifies this
      ensures match Walk(data, old(pos), old(State()))
        case Ok(st) => o == Pass && State() == st
        case Err(e) => o == Fail(e)
    {
      ghost var walked := Walk(data, pos, State());
      while true
        invariant Walk(data, pos, State()) == walked
        decreases |data| - pos
      {
        ghost var pos0, st0 := pos, State();
        var lenRead := Read(data, pos, 4);
        pos := lenRead.1;
        if lenRead.0.None? {
          return Fail(MalformedImage);
        }
        var size := Unpack1(UInt32BE, lenRead.0.value);
        if size.None? {
          return Fail(MalformedImage);
        }
        var kindRead := Read(data, pos, 4);
        pos := kindRead.1;
        if kindRead.0 == Some(IEND) {
          break;
        }
        var ok := Dispatch(kindRead.0, size.value);
        if !ok {
          return Fail(MalformedImage);
        }
        var crc := Read(data, pos, 4);  // the CRC is read and never checked
        pos := crc.1;
        assert Step(data, pos0, st0) == Continue(pos, State());
      }
      return Pass;
    }

    /** The `case section` of one loop iteration, at the cursor after the chunk type: false when
        a read returned nil, so that the loop raises. */
    method Dispatch(kind: Option<seq<byte>>, size: nat) returns (ok: bool)
      modifies this
      ensures var (next, p) := Body(data, old(pos), kind, size, old(State()));
        (ok <==> next.Some?) && (ok ==> State() == next.value && pos == p)
    {
      if kind == Some(IHDR) {
        ok := LoadHeader(size);
      } else if kind == Some(PLTE) {
        ok := AppendPalette(size);
      } else if kind == Some(IDAT) {
        ok := AppendImageData(size);
      } else if kind == Some(TRNS) {
        ok := LoadTransparency(size);
      } else {
        pos := pos + size;  // unknown chunk: seek past its payload
        ok := true;
      }
    }

    /** `when 'IHDR'`: the seven header fields from `unpack('NNCCCCC')` of the payload. */
    method LoadHeader(size: nat) returns (ok: bool)
      modifies this
      ensures var (payload, p) := Read(data, old(pos), size);
        pos == p && (ok <==> payload.Some?) && (ok ==> State() == WithHeader(old(State()), Unpack(IhdrFormat, payload.value)))
    {
      var payload := Read(data, pos, size);
      pos := payload.1;
      if payload.0.None? {
        return false;
      }
      SetHeader(Unpack(IhdrFormat, payload.0.value));
      return true;
    }

    /** `@width = values[0]` through `@interlace_method = values[6]`. */
    method SetHeader(f: seq<Option<nat>>)
      requires |f| == 7
      modifies this
      ensures State() == WithHeader(old(State()), f) && pos == old(pos)
    {
      width, height, bits, colorType := f[0], f[1], f[2], f[3];
      compressionMethod, filterMethod, interlaceMethod := f[4], f[5], f[6];
    }

    /** `when 'PLTE'`: the payload is appended to the palette. */
    method AppendPalette(size: nat) returns (ok: bool)
      modifies this
      ensures var (next, p) := Body(data, old(pos), Some(PLTE), size, old(State()));
        (ok <==> next.Some?) && (ok ==> State() == next.value && pos == p)
    {
      var payload := Read(data, pos, size);
      pos := payload.1;
      if payload.0.None? {
        return false;
      }
      palette := palette + payload.0.value;
      return true;
    }

    /** `when 'IDAT'`: the payload is appended to the compressed image data. */
    method AppendImageData(size: nat) returns (ok: bool)
      modifies this
      ensures var (next, p) := Body(data, old(pos), Some(IDAT), size, old(State()));
        (ok <==> next.Some?) && (ok ==> State() == next.value && pos == p)
    {
      var payload := Read(data, pos, size);
      pos := payload.1;
      if payload.0.None? {
        return false;
      }
      imgData := imgData + payload.0.value;
      return true;
    }

    /** `when 'tRNS'`: the transparency is emptied, then read for colour types 3, 0 and 2. */
    method LoadTransparency(size: nat) returns (ok: bool)
      modifies this
      ensures var (next, p) := Body(data, old(pos), Some(TRNS), size, old(State()));
        (ok <==> next.Some?) && (ok ==> State() == next.value && pos == p)
    {
      transparency := Empty;
      if colorType == Some(3) {
        var payload := Read(data, pos, size);
        pos := payload.1;
        if payload.0.None? {
          return false;
        }
        transparency := Palette(payload.0.value);
      } else if colorType == Some(0) {
        var payload := Read(data, pos, size);
        pos := payload.1;
        if payload.0.None? {
          return false;
        }
        transparency := Gray(Unpack1(UInt16BE, payload.0.value));
      } else if colorType == Some(2) {
        var payload := Read(data, pos, size);
        pos := payload.1;
        if payload.0.None? {
          return false;
        }
        transparency := Rgb(Unpack(RgbFormat, payload.0.value));
      }
      return true;
    }
  }
}
