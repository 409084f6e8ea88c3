/** The on-disk record format: a big-endian int32 length followed by the message bytes. */
module DiskFrames {
  import opened Options

  type Byte = b: int | 0 <= b < 256
  type Message = seq<Byte>

  /** binary.Write of an int32 length in big-endian order. */
  function Header(n: nat): (h: seq<Byte>)
    requires n < 0x8000_0000
    ensures |h| == 4
    ensures n == h[0] as int * 0x100_0000 + h[1] as int * 0x1_0000 + h[2] as int * 0x100 + h[3] as int
  {
    assert n / 0x1_0000 == n / 0x100_0000 * 0x100 + n / 0x1_0000 % 0x100;
    assert n / 0x100 == n / 0x1_0000 * 0x100 + n / 0x100 % 0x100;
    [n / 0x100_0000, n / 0x1_0000 % 0x100, n / 0x100 % 0x100, n % 0x100]
  }

  /** binary.Read of an int32 from four big-endian bytes; the top bit is the sign. */
  function Size(h: seq<Byte>): (size: int)
    requires |h| == 4
    ensures -0x8000_0000 <= size < 0x8000_0000 && (size < 0 <==> h[0] >= 0x80)
  {
    var u: int := h[0] as int * 0x100_0000 + h[1] as int * 0x1_0000 + h[2] as int * 0x100 + h[3] as int;
    if u < 0x8000_0000 then u else u - 0x1_0000_0000
  }

  lemma SizeOfHeader(n: nat)
    requires n < 0x8000_0000
    ensures Size(Header(n)) == n
  {
    assert n / 0x1_0000 == n / 0x100_0000 * 0x100 + n / 0x1_0000 % 0x100;
    assert n / 0x100 == n / 0x1_0000 * 0x100 + n / 0x100 % 0x100;
    assert n == n / 0x100 * 0x100 + n % 0x100;
  }

  function Frame(m: Message): (r: seq<Byte>)
    requires |m| < 0x8000_0000
    ensures |r| == 4 + |m|
  {
    Header(|m|) + m
  }

  /** What reading one record at offset `off` of a file with bytes `f` yields: None stands for every
      error of the source (end of file in the header or the body, size outside [lo, hi]). */
  function FrameAt(lo: nat, hi: nat, f: seq<Byte>, off: nat): (r: Option<Message>)
    ensures r.Some? ==> lo <= |r.value| <= hi && off + 4 + |r.value| <= |f|
  {
    if off + 4 > |f| then None
    else
      var size := Size(f[off..off + 4]);
      if size < lo || size > hi || off + 4 + size > |f| then None
      else Some(f[off + 4..off + 4 + size])
  }

  /** Writing `bytes` at offset `pos`: overwrite in place, with a zero-filled gap past the end. */
  function Overlay(f: seq<Byte>, pos: nat, bytes: seq<Byte>): (r: seq<Byte>)
    ensures |r| >= pos + |bytes|
    ensures |f| <= pos + |bytes| ==> |r| == pos + |bytes|
    ensures |f| > pos + |bytes| ==> |r| == |f|
    ensures forall i | 0 <= i < |r| ::
              r[i] == if pos <= i < pos + |bytes| then bytes[i - pos] else if i < |f| then f[i] else 0
  {
    var padded := if |f| < pos then f + seq(pos - |f|, _ => 0) else f[..pos];
    padded + bytes + (if pos + |bytes| < |f| then f[pos + |bytes|..] else [])
  }

  /** A record written at the end of a file is the record read back there. */
  lemma FrameRoundTrip(lo: nat, hi: nat, f: seq<Byte>, m: Message)
    requires lo <= |m| <= hi < 0x8000_0000
    ensures FrameAt(lo, hi, f + Frame(m), |f|) == Some(m)
  {
    var g := f + Frame(m);
    assert g[|f|..|f| + 4] == Header(|m|);
    SizeOfHeader(|m|);
    assert g[|f| + 4..|f| + 4 + |m|] == m;
  }

  /** A record lying inside a shared prefix reads the same in both files. */
  lemma FrameAtPrefix(lo: nat, hi: nat, f: seq<Byte>, g: seq<Byte>, off: nat, end: nat)
    requires end <= |f| && end <= |g| && f[..end] == g[..end]
    requires FrameAt(lo, hi, f, off).Some?
    requires off + 4 + |FrameAt(lo, hi, f, off).value| <= end
    ensures FrameAt(lo, hi, g, off) == FrameAt(lo, hi, f, off)
  {
    var n := |FrameAt(lo, hi, f, off).value|;
    forall i | 0 <= i < end ensures f[i] == g[i] {
      assert f[..end][i] == g[..end][i];
    }
    assert f[off..off + 4] == g[off..off + 4];
    assert f[off + 4..off + 4 + n] == g[off + 4..off + 4 + n];
  }

  lemma OverlayAtEnd(f: seq<Byte>, bytes: seq<Byte>)
    ensures Overlay(f, |f|, bytes) == f + bytes
  {
  }
}
