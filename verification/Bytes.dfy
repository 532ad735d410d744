/** Little-endian access to byte buffers, as the `u8`/`u16`/`u32` helpers of
    lib/ext2.beer use them.  A store keeps the low bits of its value, so a
    count that goes past its field wraps around. */
module Bytes {

  type byte = x: int | 0 <= x < 0x100
  type Bytes = seq<byte>

  function U16(b: Bytes, o: nat): (v: nat)
    requires o + 2 <= |b|
    ensures v < 0x1_0000
  {
    b[o] as int + 0x100 * (b[o + 1] as int)
  }

  function U32(b: Bytes, o: nat): (v: nat)
    requires o + 4 <= |b|
    ensures v < 0x1_0000_0000
  {
    U16(b, o) + 0x1_0000 * U16(b, o + 2)
  }

  function PutU16(b: Bytes, o: nat, v: int): (r: Bytes)
    requires o + 2 <= |b|
    ensures |r| == |b|
    ensures forall i :: 0 <= i < |b| && !(o <= i < o + 2) ==> r[i] == b[i]
    ensures U16(r, o) == v % 0x1_0000
  {
    b[o := v % 0x100][o + 1 := v / 0x100 % 0x100]
  }

  lemma SplitWord(v: int)
    ensures v % 0x1_0000_0000 == v % 0x1_0000 + 0x1_0000 * (v / 0x1_0000 % 0x1_0000)
  {
    var q := v / 0x1_0000;
    assert v == 0x1_0000_0000 * (q / 0x1_0000) + (0x1_0000 * (q % 0x1_0000) + v % 0x1_0000);
  }

  function PutU32(b: Bytes, o: nat, v: int): (r: Bytes)
    requires o + 4 <= |b|
    ensures |r| == |b|
    ensures forall i :: 0 <= i < |b| && !(o <= i < o + 4) ==> r[i] == b[i]
    ensures U32(r, o) == v % 0x1_0000_0000
  {
    SplitWord(v);
    var low := PutU16(b, o, v);
    var r := PutU16(low, o + 2, v / 0x1_0000);
    assert U16(r, o) == U16(low, o);
    r
  }

  /** `copy!`: the bytes of s over b from offset o. */
  function PutBytes(b: Bytes, o: nat, s: Bytes): (r: Bytes)
    requires o + |s| <= |b|
    ensures |r| == |b|
    ensures forall i :: 0 <= i < |b| && !(o <= i < o + |s|) ==> r[i] == b[i]
    ensures r[o..o + |s|] == s
  {
    b[..o] + s + b[o + |s|..]
  }

  function Zeros(n: nat): (r: Bytes)
    ensures |r| == n
    ensures forall i :: 0 <= i < n ==> r[i] == 0
  {
    seq(n, _ => 0)
  }

  /** Words o, o+4, ... of a buffer: what a pointer block or an i_block holds. */
  function Words(b: Bytes): (r: seq<nat>)
    ensures |r| == |b| / 4
    ensures forall k :: 0 <= k < |r| ==> r[k] < 0x1_0000_0000
  {
    seq(|b| / 4, k requires 0 <= k < |b| / 4 => U32(b, 4 * k))
  }

  /** The words of ws, in order, over b from its start. */
  function PutWords(b: Bytes, ws: seq<nat>): (r: Bytes)
    requires 4 * |ws| <= |b|
    ensures |r| == |b|
  {
    if ws == [] then b
    else
      var n := |ws| - 1;
      PutU32(PutWords(b, ws[..n]), 4 * n, ws[n])
  }

  lemma {:induction false} WordAtAfterPut(b: Bytes, ws: seq<nat>, k: nat)
    requires 4 * |ws| <= |b| && 4 * k + 4 <= |b|
    ensures U32(PutWords(b, ws), 4 * k) == if k < |ws| then ws[k] % 0x1_0000_0000 else U32(b, 4 * k)
  {
    if ws != [] {
      var n := |ws| - 1;
      var r := PutWords(b, ws[..n]);
      WordAtAfterPut(b, ws[..n], k);
      if k != n {
        assert U16(PutWords(b, ws), 4 * k) == U16(r, 4 * k);
        assert U16(PutWords(b, ws), 4 * k + 2) == U16(r, 4 * k + 2);
      }
    }
  }

  /** Storing words and reading them back is the identity; the rest of the
      buffer keeps its words. */
  lemma WordsOfPutWords(b: Bytes, ws: seq<nat>)
    requires 4 * |ws| <= |b|
    requires forall k :: 0 <= k < |ws| ==> ws[k] < 0x1_0000_0000
    ensures Words(PutWords(b, ws)) == ws + Words(b)[|ws|..]
  {
    hide PutWords, U32;
    forall k | 0 <= k < |b| / 4
      ensures Words(PutWords(b, ws))[k] == (ws + Words(b)[|ws|..])[k]
    {
      WordAtAfterPut(b, ws, k);
    }
  }
}
