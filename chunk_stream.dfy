/** The chunk stream seen chunk by chunk: what each chunk means for the loader, and the proof
    that the loader's cursor-level loop reads a stream of well-formed chunks with exactly that
    meaning. */
module ChunkStream {
  import opened Wrappers
  import opened Errors
  import opened Bytes
  import opened Unpacking
  import opened StringIo
  import opened PngHelpers

  /** One chunk: 4-byte length field, 4-byte type, payload and 4-byte CRC (never checked by the
      loader). */
  datatype Chunk = Chunk(length: seq<byte>, kind: seq<byte>, payload: seq<byte>, crc: seq<byte>)

  /** The length field holds the payload's length as a big-endian u32. */
  predicate WellFormed(c: Chunk)
  {
    |c.length| == 4 && U32BE(c.length) == |c.payload| && |c.kind| == 4 && |c.crc| == 4
  }

  /** Every payload shorter than 2^32 bytes can be framed as a chunk of any 4-byte type. */
  function Frame(kind: seq<byte>, payload: seq<byte>, crc: seq<byte>): (c: Chunk)
    requires |kind| == 4 && |payload| < 0x1_0000_0000 && |crc| == 4
    ensures WellFormed(c) && c.kind == kind && c.payload == payload && c.crc == crc
  {
    Chunk(U32Bytes(|payload|), kind, payload, crc)
  }

  predicate AllWellFormed(cs: seq<Chunk>)
  {
    forall i :: 0 <= i < |cs| ==> WellFormed(cs[i])
  }

  /** Chunk layout: big-endian u32 payload length, type, payload, CRC. */
  function Encode(c: Chunk): (e: seq<byte>)
    requires WellFormed(c)
    ensures |e| == 12 + |c.payload|
  {
    c.length + c.kind + c.payload + c.crc
  }

  function EncodeAll(cs: seq<Chunk>): seq<byte>
    requires AllWellFormed(cs)
  {
    if cs == [] then [] else Encode(cs[0]) + EncodeAll(cs[1..])
  }

  /** What one chunk other than IEND does to the loader's fields, chunk by chunk. */
  function Apply(c: Chunk, st: Loaded): Loaded
  {
    if ReadsPayload(c.kind, st) then Interpret(c.kind, c.payload, st)
    else if c.kind == TRNS then st.(transparency := Empty)
    else st
  }

  function Fold(cs: seq<Chunk>, st: Loaded): Loaded
  {
    if cs == [] then st else Fold(cs[1..], Apply(cs[0], st))
  }

  /** The loader stays aligned with the chunk boundaries across `c`: `c` is not IEND and, if it
      is a tRNS chunk whose payload the loader does not read, that payload is empty. */
  predicate InSync(c: Chunk, st: Loaded)
  {
    c.kind != IEND && (c.kind == TRNS && !ReadsTrns(st.colorType) ==> c.payload == [])
  }

  /** A length field followed by the IEND type at offset q. */
  predicate IendAt(data: seq<byte>, q: nat)
  {
    q + 8 <= |data| && data[q + 4..q + 8] == IEND
  }

  lemma SliceOfSlice(data: seq<byte>, pos: nat, e: seq<byte>, i: nat, j: nat)
    requires pos + |e| <= |data| && data[pos..pos + |e|] == e
    requires i <= j <= |e|
    ensures data[pos + i..pos + j] == e[i..j]
  {
    forall k | 0 <= k < j - i ensures data[pos + i..pos + j][k] == e[i..j][k] {
      assert data[pos + i..pos + j][k] == data[pos + i + k] == data[pos..pos + |e|][i + k];
    }
  }

  /** The four reads of one loop iteration over the chunk c encoded at pos: its length field,
      its type, its payload and its CRC bytes. */
  lemma ChunkReads(data: seq<byte>, pos: nat, c: Chunk)
    requires ChunkAt(data, pos, c)
    ensures var n := |c.payload|;
      && Read(data, pos, 4) == (Some(c.length), pos + 4)
      && Read(data, pos + 4, 4) == (Some(c.kind), pos + 8)
      && Read(data, pos + 8, n) == (Some(c.payload), pos + 8 + n)
      && Read(data, pos + 8 + n, 4) == (Some(c.crc), pos + 12 + n)
  {
    var e := Encode(c);
    var n := |c.payload|;
    SliceOfSlice(data, pos, e, 0, 4);
    assert e[0..4] == c.length;
    SliceOfSlice(data, pos, e, 4, 8);
    assert e[4..8] == c.kind;
    SliceOfSlice(data, pos, e, 8, 8 + n);
    assert e[8..8 + n] == c.payload;
    SliceOfSlice(data, pos, e, 8 + n, 12 + n);
    assert e[8 + n..12 + n] == c.crc;
  }

  /** One loop iteration whose four reads return a well-formed in-sync chunk leaves the cursor on
      the next chunk with the fields Apply gives; the CRC bytes are not looked at. */
  lemma StepOverReads(data: seq<byte>, pos: nat, c: Chunk, st: Loaded)
    requires WellFormed(c) && InSync(c, st)
    requires var n := |c.payload|;
      && Read(data, pos, 4) == (Some(c.length), pos + 4)
      && Read(data, pos + 4, 4) == (Some(c.kind), pos + 8)
      && Read(data, pos + 8, n) == (Some(c.payload), pos + 8 + n)
      && Read(data, pos + 8 + n, 4) == (Some(c.crc), pos + 12 + n)
    ensures Step(data, pos, st) == Continue(pos + 12 + |c.payload|, Apply(c, st))
  {
    var n := |c.payload|;
    assert Unpack1(UInt32BE, c.length) == Some(n);
    if c.kind == TRNS && !ReadsTrns(st.colorType) {
      assert Body(data, pos + 8, Some(c.kind), n, st) == (Some(st.(transparency := Empty)), pos + 8);
    } else if ReadsPayload(c.kind, st) {
      assert Body(data, pos + 8, Some(c.kind), n, st) == (Some(Interpret(c.kind, c.payload, st)), pos + 8 + n);
    } else {
      assert Body(data, pos + 8, Some(c.kind), n, st) == (Some(st), pos + 8 + n);
    }
  }

  /** One loop iteration over a well-formed in-sync chunk encoded at pos. */
  lemma StepOverChunk(data: seq<byte>, pos: nat, c: Chunk, st: Loaded)
    requires ChunkAt(data, pos, c) && InSync(c, st)
    ensures Step(data, pos, st) == Continue(pos + 12 + |c.payload|, Apply(c, st))
  {
    ChunkReads(data, pos, c);
    StepOverReads(data, pos, c, st);
  }

  /** At a length field followed by the IEND type the loop stops, keeping the fields. */
  lemma WalkAtIend(data: seq<byte>, q: nat, st: Loaded)
    requires IendAt(data, q)
    ensures Walk(data, q, st) == Ok(st)
  {
    assert Read(data, q, 4).0.value == data[q..q + 4];
    assert Read(data, q + 4, 4) == (Some(IEND), q + 8);
    assert Step(data, q, st) == Done(st);
  }

  lemma AllWellFormedTail(cs: seq<Chunk>)
    requires cs != [] && AllWellFormed(cs)
    ensures AllWellFormed(cs[1..])
  {
    forall i | 0 <= i < |cs[1..]| ensures WellFormed(cs[1..][i]) {
      assert cs[1..][i] == cs[i + 1];
    }
  }

  /** The encoding of the first chunk, then that of the rest, stand at pos in data. */
  lemma SplitEncoding(data: seq<byte>, pos: nat, cs: seq<Chunk>)
    requires cs != [] && AllWellFormed(cs)
    requires pos + |EncodeAll(cs)| <= |data| && data[pos..pos + |EncodeAll(cs)|] == EncodeAll(cs)
    ensures AllWellFormed(cs[1..])
    ensures |EncodeAll(cs)| == |Encode(cs[0])| + |EncodeAll(cs[1..])|
    ensures data[pos..pos + |Encode(cs[0])|] == Encode(cs[0])
    ensures var q := pos + |Encode(cs[0])|; data[q..q + |EncodeAll(cs[1..])|] == EncodeAll(cs[1..])
  {
    AllWellFormedTail(cs);
    var e0 := Encode(cs[0]);
    var rest := EncodeAll(cs[1..]);
    var all := EncodeAll(cs);
    assert all == e0 + rest;
    SliceOfSlice(data, pos, all, 0, |e0|);
    assert all[0..|e0|] == e0;
    SliceOfSlice(data, pos, all, |e0|, |e0| + |rest|);
    assert all[|e0|..|e0| + |rest|] == rest;
  }

  /** Chunk c is encoded at offset pos of data. */
  predicate ChunkAt(data: seq<byte>, pos: nat, c: Chunk)
  {
    WellFormed(c) && pos + |Encode(c)| <= |data| && data[pos..pos + |Encode(c)|] == Encode(c)
  }

  /** The offsets at which the chunks cs start when laid out one after another from pos; the
      last one is where the chunk after them starts. */
  function Offsets(pos: nat, cs: seq<Chunk>): (o: seq<nat>)
    ensures |o| == |cs| + 1 && o[0] == pos
    ensures forall i :: 0 <= i < |cs| ==> o[i + 1] == o[i] + 12 + |cs[i].payload|
    decreases cs
  {
    if cs == [] then [pos] else [pos] + Offsets(pos + 12 + |cs[0].payload|, cs[1..])
  }

  /** The loader's fields before each chunk of cs and, last, after all of them. */
  function States(st: Loaded, cs: seq<Chunk>): (s: seq<Loaded>)
    ensures |s| == |cs| + 1 && s[0] == st && s[|cs|] == Fold(cs, st)
    ensures forall i :: 0 <= i < |cs| ==> s[i + 1] == Apply(cs[i], s[i])
    decreases cs
  {
    if cs == [] then [st] else [st] + States(Apply(cs[0], st), cs[1..])
  }

  /** Every chunk of cs is in sync with the fields the loader holds when it reaches it. */
  predicate AllInSync(cs: seq<Chunk>, st: Loaded)
  {
    forall i :: 0 <= i < |cs| ==> InSync(cs[i], States(st, cs)[i])
  }

  /** The chunks cs are encoded one after another from offset pos of data. */
  predicate LaidOut(data: seq<byte>, pos: nat, cs: seq<Chunk>)
  {
    forall i :: 0 <= i < |cs| ==> ChunkAt(data, Offsets(pos, cs)[i], cs[i])
  }

  /** Equal neighbours make the first and last elements equal. */
  lemma {:induction false} Chain<T>(ws: seq<T>)
    requires |ws| > 0
    requires forall i :: 0 <= i < |ws| - 1 ==> ws[i] == ws[i + 1]
    ensures ws[0] == ws[|ws| - 1]
  {
    if |ws| > 1 {
      Chain(ws[1..]);
      assert ws[1..][0] == ws[1] == ws[0];
    }
  }

  /** A continuing iteration leaves the rest of the loop to run from where it stopped. */
  lemma WalkContinues(data: seq<byte>, pos: nat, st: Loaded, q: nat, s: Loaded)
    requires Step(data, pos, st) == Continue(q, s)
    ensures Walk(data, pos, st) == Walk(data, q, s)
  {
  }

  /** The loop walks in-sync chunks laid out from pos and followed by IEND and ends with the
      fields Fold gives. */
  lemma WalkOverChunks(data: seq<byte>, pos: nat, cs: seq<Chunk>, st: Loaded)
    requires LaidOut(data, pos, cs) && AllInSync(cs, st)
    requires IendAt(data, Offsets(pos, cs)[|cs|])
    ensures Walk(data, pos, st) == Ok(Fold(cs, st))
  {
    WalkThroughChunks(data, pos, cs, st);
    WalkAtIend(data, Offsets(pos, cs)[|cs|], Fold(cs, st));
  }

  /** Over in-sync chunks laid out from pos, the loop reaches the offset after them with the
      fields Fold gives, and continues from there. */
  lemma WalkThroughChunks(data: seq<byte>, pos: nat, cs: seq<Chunk>, st: Loaded)
    requires LaidOut(data, pos, cs) && AllInSync(cs, st)
    ensures Walk(data, pos, st) == Walk(data, Offsets(pos, cs)[|cs|], Fold(cs, st))
  {
    var o, s := Offsets(pos, cs), States(st, cs);
    var ws := seq(|cs| + 1, i requires 0 <= i <= |cs| => Walk(data, o[i], s[i]));
    forall i | 0 <= i < |cs| ensures ws[i] == ws[i + 1] {
      StepOverChunk(data, o[i], cs[i], s[i]);
      WalkContinues(data, o[i], s[i], o[i + 1], s[i + 1]);
    }
    Chain(ws);
  }

  /** With fewer than 8 bytes left the loop raises: a short length field unpacks to nil; with a
      whole length field the type read is nil or short, so the chunk is skipped past the end
      and the next length read returns nil. */
  lemma WalkAtShortEnd(data: seq<byte>, q: nat, st: Loaded)
    requires |data| < q + 8
    ensures Walk(data, q, st) == Err(MalformedImage)
  {
    if q + 4 <= |data| {
      var kind := Read(data, q + 4, 4).0;
      assert kind != Some(IEND) by {
        if kind.Some? {
          assert |kind.value| < 4;
        }
      }
      match Step(data, q, st)
      case Continue(p, s) =>
        assert p >= |data|;
        assert Step(data, p, s) == Abort(MalformedImage);
      case Done(_) =>
        assert false;
      case Abort(e) =>
        assert e == MalformedImage;
    }
  }

  /** A stream whose chunks are followed by fewer than 8 bytes, so that no IEND type follows
      them, makes the loader raise MalformedImage whatever the chunks hold. */
  lemma TruncatedStream(signature: seq<byte>, cs: seq<Chunk>, tail: seq<byte>, prior: Loaded,
                        inflate: seq<byte> -> Option<seq<byte>>)
    requires |signature| == 8 && |tail| < 8
    requires AllWellFormed(cs) && AllInSync(cs, Reset(prior))
    ensures LoadFrom(Stream(signature, cs, tail), prior, inflate) == Err(MalformedImage)
  {
    var data := Stream(signature, cs, tail);
    StreamChunks(signature, cs, tail);
    assert Read(data, 0, 8).1 == 8;
    WalkThroughChunks(data, 8, cs, Reset(prior));
    WalkAtShortEnd(data, 8 + |EncodeAll(cs)|, Fold(cs, Reset(prior)));
  }

  /** The chunks encoded back to back from pos are laid out one after another, and the chunk
      after them starts where their encoding ends. */
  lemma {:induction false} EncodedLaidOut(data: seq<byte>, pos: nat, cs: seq<Chunk>)
    requires AllWellFormed(cs)
    requires pos + |EncodeAll(cs)| <= |data| && data[pos..pos + |EncodeAll(cs)|] == EncodeAll(cs)
    ensures LaidOut(data, pos, cs) && Offsets(pos, cs)[|cs|] == pos + |EncodeAll(cs)|
    decreases cs
  {
    if cs != [] {
      SplitEncoding(data, pos, cs);
      var q := pos + |Encode(cs[0])|;
      EncodedLaidOut(data, q, cs[1..]);
      var o := Offsets(pos, cs);
      assert o == [pos] + Offsets(q, cs[1..]);
      forall i | 0 <= i < |cs| ensures ChunkAt(data, o[i], cs[i]) {
        if i > 0 {
          assert o[i] == Offsets(q, cs[1..])[i - 1];
          assert cs[i] == cs[1..][i - 1];
        }
      }
    }
  }

  /** A PNG stream: 8 signature bytes, the chunks, then a chunk whose type is IEND (its length,
      CRC and anything after it are never read). */
  function Stream(signature: seq<byte>, cs: seq<Chunk>, end: seq<byte>): (data: seq<byte>)
    requires AllWellFormed(cs)
    ensures |data| == |signature| + |EncodeAll(cs)| + |end|
  {
    signature + EncodeAll(cs) + end
  }

  /** The end of a stream: a length field and the IEND type, then anything. */
  predicate EndsStream(end: seq<byte>)
  {
    |end| >= 8 && end[4..8] == IEND
  }

  /** Loading a stream of in-sync chunks gives the fields Fold gives, with the IDAT bytes then
      inflated. */
  lemma LoadStream(signature: seq<byte>, cs: seq<Chunk>, end: seq<byte>, prior: Loaded,
                   inflate: seq<byte> -> Option<seq<byte>>)
    requires |signature| == 8 && EndsStream(end)
    requires AllWellFormed(cs) && AllInSync(cs, Reset(prior))
    ensures var st := Fold(cs, Reset(prior));
      LoadFrom(Stream(signature, cs, end), prior, inflate) ==
        match inflate(st.imgData)
        case None => Err(InflateFailed)
        case Some(raw) => Ok(st.(imgData := raw))
  {
    var data := Stream(signature, cs, end);
    StreamChunks(signature, cs, end);
    StreamIend(signature, cs, end);
    assert Read(data, 0, 8).1 == 8;
    WalkOverChunks(data, 8, cs, Reset(prior));
  }

  /** In a stream the chunks are laid out after the signature the loader skips. */
  lemma StreamChunks(signature: seq<byte>, cs: seq<Chunk>, end: seq<byte>)
    requires |signature| == 8 && AllWellFormed(cs)
    ensures var data := Stream(signature, cs, end);
      LaidOut(data, 8, cs) && Offsets(8, cs)[|cs|] == 8 + |EncodeAll(cs)|
  {
    Infixes(signature, EncodeAll(cs), end);
    EncodedLaidOut(Stream(signature, cs, end), 8, cs);
  }

  /** In a stream IEND follows the chunks. */
  lemma StreamIend(signature: seq<byte>, cs: seq<Chunk>, end: seq<byte>)
    requires |signature| == 8 && EndsStream(end) && AllWellFormed(cs)
    ensures IendAt(Stream(signature, cs, end), 8 + |EncodeAll(cs)|)
  {
    var data := Stream(signature, cs, end);
    var q := 8 + |EncodeAll(cs)|;
    Infixes(signature, EncodeAll(cs), end);
    SliceOfSlice(data, q, end, 4, 8);
  }

  lemma Infixes(a: seq<byte>, b: seq<byte>, c: seq<byte>)
    ensures (a + b + c)[|a|..|a| + |b|] == b
    ensures (a + b + c)[|a| + |b|..|a| + |b| + |c|] == c
  {
    var d := a + b + c;
    assert d[|a|..|a| + |b|] == b by {
      forall k | 0 <= k < |b| ensures d[|a|..|a| + |b|][k] == b[k] {
        assert d[|a| + k] == b[k];
      }
    }
  }

  /** The concatenated payloads of the chunks of type `kind`, in stream order. */
  function Payloads(cs: seq<Chunk>, kind: seq<byte>): seq<byte>
  {
    if cs == [] then []
    else (if cs[0].kind == kind then cs[0].payload else []) + Payloads(cs[1..], kind)
  }

  /** The seven IHDR fields, in the order 'NNCCCCC' gives them. */
  function Header(st: Loaded): seq<Option<nat>>
  {
    [st.width, st.height, st.bits, st.colorType, st.compressionMethod, st.filterMethod,
     st.interlaceMethod]
  }

  /** The payload of the last IHDR chunk of cs, if there is one. */
  function LastIhdr(cs: seq<Chunk>): Option<seq<byte>>
  {
    if cs == [] then None
    else
      var later := LastIhdr(cs[1..]);
      if later.Some? then later
      else if cs[0].kind == IHDR then Some(cs[0].payload)
      else None
  }

  /** What one chunk does to each group of fields: PLTE and IDAT payloads are appended, IHDR
      replaces the header, and only tRNS touches the transparency. */
  lemma ApplyFields(c: Chunk, st: Loaded)
    ensures Apply(c, st).palette == st.palette + (if c.kind == PLTE then c.payload else [])
    ensures Apply(c, st).imgData == st.imgData + (if c.kind == IDAT then c.payload else [])
    ensures Header(Apply(c, st)) == if c.kind == IHDR then Unpack(IhdrFormat, c.payload) else Header(st)
    ensures c.kind != TRNS ==> Apply(c, st).transparency == st.transparency
  {
    if c.kind == IHDR {
      var f := Unpack(IhdrFormat, c.payload);
      assert Header(Apply(c, st)) == [f[0], f[1], f[2], f[3], f[4], f[5], f[6]];
    }
  }

  /** PLTE payloads accumulate into the palette and IDAT payloads into the image data, in
      stream order, whatever else the stream holds. */
  lemma {:induction false} FoldPayloads(cs: seq<Chunk>, st: Loaded)
    ensures Fold(cs, st).palette == st.palette + Payloads(cs, PLTE)
    ensures Fold(cs, st).imgData == st.imgData + Payloads(cs, IDAT)
    decreases cs
  {
    if cs != [] {
      var st' := Apply(cs[0], st);
      ApplyFields(cs[0], st);
      FoldPayloads(cs[1..], st');
      assert st.palette + Payloads(cs, PLTE) == st'.palette + Payloads(cs[1..], PLTE);
      assert st.imgData + Payloads(cs, IDAT) == st'.imgData + Payloads(cs[1..], IDAT);
    }
  }

  /** The header fields are those of the last IHDR chunk; without one they stay as they were. */
  lemma {:induction false} FoldHeader(cs: seq<Chunk>, st: Loaded)
    ensures Header(Fold(cs, st)) ==
      if LastIhdr(cs).Some? then Unpack(IhdrFormat, LastIhdr(cs).value) else Header(st)
    decreases cs
  {
    if cs != [] {
      ApplyFields(cs[0], st);
      FoldHeader(cs[1..], Apply(cs[0], st));
    }
  }

  /** Without a tRNS chunk the transparency stays as it was. */
  lemma {:induction false} FoldNoTrns(cs: seq<Chunk>, st: Loaded)
    requires forall i :: 0 <= i < |cs| ==> cs[i].kind != TRNS
    ensures Fold(cs, st).transparency == st.transparency
    decreases cs
  {
    if cs != [] {
      ApplyFields(cs[0], st);
      assert cs[0].kind != TRNS;
      FoldNoTrns(cs[1..], Apply(cs[0], st));
    }
  }

  /** An IHDR payload of at least 13 bytes sets width and height from two big-endian u32, then
      bit depth, colour type, compression, filter and interlace method from single bytes, and
      leaves the other fields alone. */
  lemma ApplyIhdr(c: Chunk, st: Loaded)
    requires c.kind == IHDR && |c.payload| >= 13
    ensures var p, st' := c.payload, Apply(c, st);
      && Header(st') == [Some(U32BE(p[0..4])), Some(U32BE(p[4..8])), Some(p[8] as nat),
                         Some(p[9] as nat), Some(p[10] as nat), Some(p[11] as nat), Some(p[12] as nat)]
      && st'.palette == st.palette && st'.imgData == st.imgData && st'.transparency == st.transparency
  {
    ApplyFields(c, st);
    IhdrFields(c.payload);
  }

  /** A tRNS chunk empties the transparency, then for an indexed image takes the whole payload
      as palette alphas, for a greyscale image the first big-endian u16 as the grey key, for a
      truecolour image the first three big-endian u16 as the RGB key (nil where the payload
      ends first), and for any other colour type leaves it empty. Nothing else changes. */
  lemma ApplyTrns(c: Chunk, st: Loaded)
    requires c.kind == TRNS
    ensures var p := c.payload; Apply(c, st) == st.(transparency :=
      if st.colorType == Some(3) then Palette(p)
      else if st.colorType == Some(0) then Gray(U16At(p, 0))
      else if st.colorType == Some(2) then Rgb([U16At(p, 0), U16At(p, 1), U16At(p, 2)])
      else Empty)
  {
    var p := c.payload;
    assert Unpack1(UInt16BE, p) == U16At(p, 0) by {
      assert |p| >= 2 ==> p[0..] == p;
    }
    RgbFields(p);
  }

  /** A tRNS chunk for a colour type other than 0, 2 and 3 does not have its payload read: the
      four bytes after its type are taken as its CRC and the next iteration starts 12 bytes
      after the chunk's start, inside the payload when there is one. */
  lemma StepOverUnreadTrns(data: seq<byte>, pos: nat, c: Chunk, st: Loaded)
    requires ChunkAt(data, pos, c) && c.kind == TRNS && !ReadsTrns(st.colorType)
    ensures Step(data, pos, st) == Continue(pos + 12, st.(transparency := Empty))
  {
    ChunkReads(data, pos, c);
    var n := |c.payload|;
    assert Unpack1(UInt32BE, c.length) == Some(n);
    assert Body(data, pos + 8, Some(c.kind), n, st) == (Some(st.(transparency := Empty)), pos + 8);
    assert Read(data, pos + 8, 4).1 == pos + 12;
  }

  /** A chunk of a type the loader does not know is skipped: the cursor moves past its length,
      type, payload and CRC, and no field changes. */
  lemma SkipUnknown(data: seq<byte>, pos: nat, c: Chunk, st: Loaded)
    requires ChunkAt(data, pos, c)
    requires c.kind != IHDR && c.kind != PLTE && c.kind != IDAT && c.kind != TRNS && c.kind != IEND
    ensures Step(data, pos, st) == Continue(pos + 12 + |c.payload|, st)
  {
    StepOverChunk(data, pos, c, st);
  }

  /** Chunks that differ only in their CRC bytes. */
  predicate SameButCrc(cs: seq<Chunk>, ds: seq<Chunk>)
  {
    |cs| == |ds| && forall i :: 0 <= i < |cs| ==> ds[i] == cs[i].(crc := ds[i].crc)
  }

  lemma {:induction false} StatesIgnoreCrc(cs: seq<Chunk>, ds: seq<Chunk>, st: Loaded)
    requires SameButCrc(cs, ds)
    ensures States(st, cs) == States(st, ds)
    decreases cs
  {
    if cs != [] {
      assert Apply(cs[0], st) == Apply(ds[0], st);
      assert SameButCrc(cs[1..], ds[1..]) by {
        forall i | 0 <= i < |cs| - 1 ensures ds[1..][i] == cs[1..][i].(crc := ds[1..][i].crc) {
          assert ds[1..][i] == ds[i + 1] && cs[1..][i] == cs[i + 1];
        }
      }
      StatesIgnoreCrc(cs[1..], ds[1..], Apply(cs[0], st));
    }
  }

  /** The CRC bytes are never checked: changing them does not change what the loader gives. */
  lemma CrcIgnored(signature: seq<byte>, cs: seq<Chunk>, ds: seq<Chunk>, end: seq<byte>,
                   prior: Loaded, inflate: seq<byte> -> Option<seq<byte>>)
    requires |signature| == 8 && EndsStream(end)
    requires AllWellFormed(cs) && AllWellFormed(ds) && SameButCrc(cs, ds)
    requires AllInSync(cs, Reset(prior))
    ensures LoadFrom(Stream(signature, cs, end), prior, inflate) ==
            LoadFrom(Stream(signature, ds, end), prior, inflate)
  {
    var st := Reset(prior);
    StatesIgnoreCrc(cs, ds, st);
    assert AllInSync(ds, st) by {
      forall i | 0 <= i < |ds| ensures InSync(ds[i], States(st, ds)[i]) {
        assert InSync(cs[i], States(st, cs)[i]);
      }
    }
    LoadStream(signature, cs, end, prior, inflate);
    LoadStream(signature, ds, end, prior, inflate);
  }

  /** Streams that agree from offset 8 on give the same reads there. */
  lemma ReadAgree(a: seq<byte>, b: seq<byte>, pos: nat, n: nat)
    requires |a| >= 8 && |b| >= 8 && a[8..] == b[8..] && pos >= 8
    ensures Read(a, pos, n) == Read(b, pos, n)
  {
    assert |a| == |b|;
    if n > 0 && pos < |a| {
      var m := Min(pos + n, |a|);
      forall i | pos <= i < m
        ensures a[i] == b[i]
      {
        assert a[i] == a[8..][i - 8] && b[i] == b[8..][i - 8];
      }
      assert a[pos..m] == b[pos..m];
    }
  }

  lemma StepAgree(a: seq<byte>, b: seq<byte>, pos: nat, st: Loaded)
    requires |a| >= 8 && |b| >= 8 && a[8..] == b[8..] && pos >= 8
    ensures Step(a, pos, st) == Step(b, pos, st)
  {
    ReadAgree(a, b, pos, 4);
    var (len, p1) := Read(a, pos, 4);
    if len.Some? && Unpack1(UInt32BE, len.value).Some? {
      var size := Unpack1(UInt32BE, len.value).value;
      ReadAgree(a, b, p1, 4);
      var (kind, p2) := Read(a, p1, 4);
      ReadAgree(a, b, p2, size);
      assert Body(a, p2, kind, size, st) == Body(b, p2, kind, size, st);
      var p3 := Body(a, p2, kind, size, st).1;
      ReadAgree(a, b, p3, 4);
    }
  }

  /** The chunk loop never looks at the first 8 bytes. */
  lemma {:induction false} WalkAgree(a: seq<byte>, b: seq<byte>, pos: nat, st: Loaded)
    requires |a| >= 8 && |b| >= 8 && a[8..] == b[8..] && pos >= 8
    ensures Walk(a, pos, st) == Walk(b, pos, st)
    decreases |a| - pos
  {
    StepAgree(a, b, pos, st);
    match Step(a, pos, st)
    case Done(_) =>
    case Abort(_) =>
    case Continue(q, s) =>
      WalkAgree(a, b, q, s);
  }

  /** The 8 signature bytes are skipped without being checked: streams that agree after them
      load the same way. */
  lemma SignatureIgnored(a: seq<byte>, b: seq<byte>, prior: Loaded,
                         inflate: seq<byte> -> Option<seq<byte>>)
    requires |a| >= 8 && |b| >= 8 && a[8..] == b[8..]
    ensures LoadFrom(a, prior, inflate) == LoadFrom(b, prior, inflate)
  {
    assert Read(a, 0, 8).1 == 8 == Read(b, 0, 8).1;
    WalkAgree(a, b, 8, Reset(prior));
  }

  /** Loading succeeds only where an IEND type tag stands after the signature and a length field:
      a stream that ends first makes a read return nil and the loop raise. */
  lemma LoadNeedsIend(data: seq<byte>, prior: Loaded, inflate: seq<byte> -> Option<seq<byte>>)
    ensures LoadFrom(data, prior, inflate).Ok? ==> exists i :: 12 <= i && TagAt(data, i, IEND)
  {
    if |data| >= 8 {
      assert Read(data, 0, 8).1 == 8;
    }
  }

  /** The fields of a fresh loader after a stream without PLTE and tRNS chunks: no palette, no
      transparency, the header of the last IHDR chunk and the inflated concatenation of the
      IDAT payloads. */
  lemma PlainImage(signature: seq<byte>, cs: seq<Chunk>, end: seq<byte>,
                   inflate: seq<byte> -> Option<seq<byte>>)
    requires |signature| == 8 && EndsStream(end) && AllWellFormed(cs)
    requires forall i :: 0 <= i < |cs| ==> cs[i].kind != PLTE && cs[i].kind != TRNS && cs[i].kind != IEND
    ensures var r := LoadFrom(Stream(signature, cs, end), Unset, inflate);
      && (r.Ok? <==> inflate(Payloads(cs, IDAT)).Some?)
      && (r.Ok? ==>
            && r.value.palette == [] && r.value.transparency == Empty
            && r.value.imgData == inflate(Payloads(cs, IDAT)).value
            && Header(r.value) ==
                 if LastIhdr(cs).Some? then Unpack(IhdrFormat, LastIhdr(cs).value) else Header(Unset))
  {
    assert Reset(Unset) == Unset;
    PlainInSync(cs, Unset);
    LoadStream(signature, cs, end, Unset, inflate);
    PlainFold(cs);
  }

  lemma PlainInSync(cs: seq<Chunk>, st: Loaded)
    requires forall i :: 0 <= i < |cs| ==> cs[i].kind != TRNS && cs[i].kind != IEND
    ensures AllInSync(cs, st)
  {
    forall i | 0 <= i < |cs| ensures InSync(cs[i], States(st, cs)[i]) {
    }
  }

  lemma PlainFold(cs: seq<Chunk>)
    requires forall i :: 0 <= i < |cs| ==> cs[i].kind != PLTE && cs[i].kind != TRNS
    ensures var st := Fold(cs, Unset);
      && st.palette == [] && st.transparency == Empty && st.imgData == Payloads(cs, IDAT)
      && Header(st) == if LastIhdr(cs).Some? then Unpack(IhdrFormat, LastIhdr(cs).value) else Header(Unset)
  {
    FoldPayloads(cs, Unset);
    FoldHeader(cs, Unset);
    FoldNoTrns(cs, Unset);
    NoPalettePayloads(cs);
  }

  lemma {:induction false} NoPalettePayloads(cs: seq<Chunk>)
    requires forall i :: 0 <= i < |cs| ==> cs[i].kind != PLTE
    ensures Payloads(cs, PLTE) == []
    decreases cs
  {
    if cs != [] {
      assert cs[0].kind != PLTE;
      NoPalettePayloads(cs[1..]);
    }
  }
}
