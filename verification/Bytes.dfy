/** Bytes, and little-endian fields in a byte string. */
module Bytes {
  type byte = x: int | 0 <= x < 0x100
  type word = x: int | 0 <= x < 0x1_0000

  function Word(s: seq<byte>, i: nat): word
    requires i + 2 <= |s|
  {
    var lo: int, hi: int := s[i], s[i + 1];
    lo + 0x100 * hi
  }

  function Long(s: seq<byte>, i: nat): nat
    requires i + 4 <= |s|
  {
    Word(s, i) + 0x1_0000 * Word(s, i + 2)
  }

  function WordBytes(w: word): (s: seq<byte>)
    ensures |s| == 2 && Word(s, 0) == w
  {
    [w % 0x100, w / 0x100]
  }

  function LongBytes(n: nat): (s: seq<byte>)
    requires n < 0x1_0000_0000
    ensures |s| == 4 && Long(s, 0) == n
  {
    WordBytes(n % 0x1_0000) + WordBytes(n / 0x1_0000)
  }

  /** The string with `data` written over it from `at` on. */
  function Patch(s: seq<byte>, at: nat, data: seq<byte>): (t: seq<byte>)
    requires at + |data| <= |s|
    ensures |t| == |s| && t[at..at + |data|] == data
    ensures forall k :: 0 <= k < |s| && !(at <= k < at + |data|) ==> t[k] == s[k]
  {
    s[..at] + data + s[at + |data|..]
  }

  lemma WordInside(s: seq<byte>, at: nat, data: seq<byte>, k: nat)
    requires at + |data| <= |s| && s[at..at + |data|] == data && k + 2 <= |data|
    ensures Word(s, at + k) == Word(data, k)
  {
    assert s[at + k] == data[k] && s[at + k + 1] == data[k + 1];
  }

  lemma SliceInside(s: seq<byte>, a: nat, b: nat, lo: nat, hi: nat)
    requires a <= lo <= hi <= b <= |s|
    ensures s[a..b][lo - a..hi - a] == s[lo..hi]
  {
    var t := s[a..b];
    forall k | 0 <= k < hi - lo
      ensures t[lo - a..hi - a][k] == s[lo..hi][k]
    {
      assert t[lo - a..hi - a][k] == t[lo - a + k] == s[lo + k];
    }
  }

  /** memcpy. */
  method Copy(mbx: array<byte>, at: nat, data: seq<byte>)
    requires at + |data| <= mbx.Length
    modifies mbx
    ensures mbx[..] == Patch(old(mbx[..]), at, data)
  {
    forall k | 0 <= k < |data| {
      mbx[at + k] := data[k];
    }
  }

  method CopyWord(mbx: array<byte>, at: nat, w: word)
    requires at + 2 <= mbx.Length
    modifies mbx
    ensures mbx[..] == Patch(old(mbx[..]), at, WordBytes(w)) && Word(mbx[..], at) == w
  {
    mbx[at], mbx[at + 1] := w % 0x100, w / 0x100;
  }

  method CopyLong(mbx: array<byte>, at: nat, n: nat)
    requires n < 0x1_0000_0000 && at + 4 <= mbx.Length
    modifies mbx
    ensures mbx[..] == Patch(old(mbx[..]), at, LongBytes(n)) && Long(mbx[..], at) == n
  {
    CopyWord(mbx, at, n % 0x1_0000);
    CopyWord(mbx, at + 2, n / 0x1_0000);
  }

  /** Appends to what is in the buffer. */
  method Append(p: array<byte>, size: nat, data: seq<byte>) returns (newSize: nat)
    requires size + |data| <= p.Length
    modifies p
    ensures newSize == size + |data| && p[..newSize] == old(p[..size]) + data
    ensures forall end :: newSize <= end <= p.Length ==> p[end..] == old(p[end..])
  {
    Copy(p, size, data);
    newSize := size + |data|;
  }
}
