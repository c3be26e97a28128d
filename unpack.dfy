/** `String#unpack` for the three integer directives the PNG loader uses. */
module Unpacking {
  import opened Wrappers
  import opened Bytes

  /** 'C' (8-bit unsigned), 'n' (16-bit big-endian unsigned), 'N' (32-bit big-endian unsigned). */
  datatype Directive = UInt8 | UInt16BE | UInt32BE

  function Size(d: Directive): nat
  {
    match d
    case UInt8 => 1
    case UInt16BE => 2
    case UInt32BE => 4
  }

  function Value(d: Directive, s: seq<byte>): nat
    requires |s| >= Size(d)
  {
    match d
    case UInt8 => s[0] as nat
    case UInt16BE => U16BE(s)
    case UInt32BE => U32BE(s)
  }

  /** The bytes a format consumes when every directive finds enough of them. */
  function Total(format: seq<Directive>): nat
  {
    if format == [] then 0 else Size(format[0]) + Total(format[1..])
  }

  /** Directives are applied left to right. One that finds fewer bytes than it needs yields nil
      and consumes nothing, so a later, narrower directive may still read the leftover bytes. */
  function Unpack(format: seq<Directive>, s: seq<byte>): (r: seq<Option<nat>>)
    ensures |r| == |format|
  {
    if format == [] then []
    else if |s| >= Size(format[0]) then [Some(Value(format[0], s))] + Unpack(format[1..], s[Size(format[0])..])
    else [None] + Unpack(format[1..], s)
  }

  /** `unpack1`: the first value `unpack` would give. */
  function Unpack1(d: Directive, s: seq<byte>): (r: Option<nat>)
    ensures r == if |s| >= Size(d) then Some(Value(d, s)) else None
  {
    Unpack([d], s)[0]
  }

  /** 'NNCCCCC', the layout of an IHDR payload. */
  const IhdrFormat: seq<Directive> := [UInt32BE, UInt32BE, UInt8, UInt8, UInt8, UInt8, UInt8]

  /** 'nnn', the layout of a tRNS payload for an RGB image. */
  const RgbFormat: seq<Directive> := [UInt16BE, UInt16BE, UInt16BE]

  /** One directive that finds enough bytes yields its value and consumes its width. */
  lemma UnpackCons(d: Directive, rest: seq<Directive>, s: seq<byte>)
    requires |s| >= Size(d)
    ensures Unpack([d] + rest, s) == [Some(Value(d, s))] + Unpack(rest, s[Size(d)..])
  {
    assert ([d] + rest)[1..] == rest;
  }

  /** A directive that finds too few bytes yields nil and consumes nothing. */
  lemma UnpackConsShort(d: Directive, rest: seq<Directive>, s: seq<byte>)
    requires |s| < Size(d)
    ensures Unpack([d] + rest, s) == [None] + Unpack(rest, s)
  {
    assert ([d] + rest)[1..] == rest;
  }

  /** A full IHDR payload gives width and height as big-endian u32, then bit depth, colour type,
      compression, filter and interlace method as single bytes, in that order; bytes past the
      thirteenth are ignored. */
  lemma IhdrFields(p: seq<byte>)
    requires |p| >= 13
    ensures Unpack(IhdrFormat, p) ==
      [Some(U32BE(p[0..4])), Some(U32BE(p[4..8])), Some(p[8] as nat), Some(p[9] as nat),
       Some(p[10] as nat), Some(p[11] as nat), Some(p[12] as nat)]
  {
    var bytes := [UInt8, UInt8, UInt8, UInt8, UInt8];
    var q := p[8..];
    FiveBytes(q);
    assert q[0] == p[8] && q[1] == p[9] && q[2] == p[10] && q[3] == p[11] && q[4] == p[12];
    UnpackCons(UInt32BE, bytes, p[4..]);
    assert p[4..][4..] == q;
    assert Value(UInt32BE, p[4..]) == U32BE(p[4..8]);
    UnpackCons(UInt32BE, [UInt32BE] + bytes, p);
    assert Value(UInt32BE, p) == U32BE(p[0..4]);
    assert IhdrFormat == [UInt32BE] + ([UInt32BE] + bytes);
  }

  /** Every directive yields a value when the string holds the bytes of the whole format. */
  lemma {:induction false} UnpackComplete(format: seq<Directive>, s: seq<byte>)
    requires |s| >= Total(format)
    ensures forall i :: 0 <= i < |format| ==> Unpack(format, s)[i].Some?
    decreases format
  {
    if format != [] {
      var rest := s[Size(format[0])..];
      UnpackComplete(format[1..], rest);
      assert Unpack(format, s) == [Some(Value(format[0], s))] + Unpack(format[1..], rest);
    }
  }

  /** Five 'C' directives read the first five bytes. */
  lemma FiveBytes(q: seq<byte>)
    requires |q| >= 5
    ensures Unpack([UInt8, UInt8, UInt8, UInt8, UInt8], q) ==
      [Some(q[0] as nat), Some(q[1] as nat), Some(q[2] as nat), Some(q[3] as nat), Some(q[4] as nat)]
  {
    UnpackCons(UInt8, [], q[4..]);
    assert q[4..][1..] == q[5..];
    UnpackCons(UInt8, [UInt8], q[3..]);
    assert q[3..][1..] == q[4..];
    UnpackCons(UInt8, [UInt8, UInt8], q[2..]);
    assert q[2..][1..] == q[3..];
    UnpackCons(UInt8, [UInt8, UInt8, UInt8], q[1..]);
    assert q[1..][1..] == q[2..];
    UnpackCons(UInt8, [UInt8, UInt8, UInt8, UInt8], q);
  }

  /** The i-th big-endian u16 of a payload, or nil when the payload is too short to hold it. */
  function U16At(p: seq<byte>, i: nat): Option<nat>
  {
    if |p| >= 2 * i + 2 then Some(U16BE(p[2 * i..])) else None
  }

  /** 'nnn' gives the first three big-endian u16 of the payload, nil for each one it does not hold. */
  lemma RgbFields(p: seq<byte>)
    ensures Unpack(RgbFormat, p) == [U16At(p, 0), U16At(p, 1), U16At(p, 2)]
  {
    var n := UInt16BE;
    assert RgbFormat == [n] + [n, n];
    assert [n, n] == [n] + [n];
    if |p| < 2 {
      UnpackConsShort(n, [], p);
      UnpackConsShort(n, [n], p);
      UnpackConsShort(n, [n, n], p);
    } else {
      var q := p[2..];
      if |q| < 2 {
        UnpackConsShort(n, [], q);
        UnpackConsShort(n, [n], q);
      } else {
        var t := q[2..];
        assert t == p[4..];
        if |t| < 2 {
          UnpackConsShort(n, [], t);
        } else {
          UnpackCons(n, [], t);
        }
        UnpackCons(n, [n], q);
        assert Value(n, q) == U16BE(p[2..]);
      }
      UnpackCons(n, [n, n], p);
    }
  }
}
