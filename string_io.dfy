/** The two StringIO operations the decoder relies on: reading at a cursor and writing into a buffer. */
module StringIo {
  import opened Wrappers
  import opened Bytes

  /** `StringIO#read(n)` at cursor `pos`, giving the bytes read (nil at or past the end when n > 0)
      and the new cursor. A cursor moved past the end by `seek` behaves like one at the end. */
  function Read(data: seq<byte>, pos: nat, n: nat): (r: (Option<seq<byte>>, nat))
    ensures r.0.None? <==> n > 0 && pos >= |data|
    ensures r.0.None? ==> r.1 == pos
    ensures r.0.Some? ==> r.1 == pos + |r.0.value| && |r.0.value| <= n
    ensures r.0.Some? && pos < |data| ==> |r.0.value| == Min(n, |data| - pos) && r.0.value == data[pos..r.1]
  {
    if n == 0 then (Some([]), pos)
    else if pos >= |data| then (None, pos)
    else (Some(data[pos..Min(pos + n, |data|)]), Min(pos + n, |data|))
  }

  /** `StringIO#write(bytes)` at cursor `at` of a buffer that is already long enough. */
  method Write(buf: array<byte>, at: nat, bytes: seq<byte>)
    requires at + |bytes| <= buf.Length
    modifies buf
    ensures buf[..] == old(buf[..at]) + bytes + old(buf[at + |bytes|..])
  {
    var i := 0;
    while i < |bytes|
      invariant 0 <= i <= |bytes|
      invariant forall j :: 0 <= j < buf.Length ==>
        buf[j] == if at <= j < at + i then bytes[j - at] else old(buf[j])
    {
      buf[at + i] := bytes[i];
      i := i + 1;
    }
    assert buf[..] == old(buf[..at]) + bytes + old(buf[at + |bytes|..]);
  }

  /** `StringIO#write(bytes)` (or `putc`) on a buffer that was zero-filled when created and
      has had `written` written from its start: the bytes extend what was written, and the rest
      of the buffer stays zero. */
  method Append(buf: array<byte>, ghost written: seq<byte>, at: nat, bytes: seq<byte>)
    requires at == |written| && at + |bytes| <= buf.Length
    requires buf[..] == written + Zeros(buf.Length - |written|)
    modifies buf
    ensures buf[..] == (written + bytes) + Zeros(buf.Length - |written + bytes|)
  {
    ghost var before := buf[..];
    assert before[..at] == written;
    assert before[at + |bytes|..] == Zeros(buf.Length - |written + bytes|);
    Write(buf, at, bytes);
  }
}
