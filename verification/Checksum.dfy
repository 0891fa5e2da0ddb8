/** The report checksum: a plain XOR over bytes 2..=87 of the 90-byte wire form
    (crates/razer-proto/src/crc.rs), and the algebra that makes byte 1 invisible to it. */
module Checksum {

  type byte = bv8

  const REPORT_LEN := 90

  /** The 90 bytes of an encoded report. */
  type Wire = s: seq<byte> | |s| == REPORT_LEN witness seq(REPORT_LEN, _ => 0)

  /** Left fold of `^` from 0. */
  function XorAll(s: seq<byte>): byte {
    if s == [] then 0 else XorAll(s[..|s| - 1]) ^ s[|s| - 1]
  }

  function Crc(bytes: Wire): byte {
    XorAll(bytes[2..88])
  }

  predicate VerifyCrc(bytes: Wire) {
    bytes[88] == Crc(bytes)
  }

  predicate Covered(i: int) {
    2 <= i < 88
  }

  // ---------------------------------------------------------------- the fold

  lemma {:induction false} XorAllConcat(a: seq<byte>, b: seq<byte>)
    ensures XorAll(a + b) == XorAll(a) ^ XorAll(b)
    decreases |b|
  {
    if b == [] {
      assert a + b == a;
    } else {
      var b' := b[..|b| - 1];
      XorAllConcat(a, b');
      assert (a + b)[..|a + b| - 1] == a + b';
    }
  }

  lemma XorAllSplit(s: seq<byte>, i: nat)
    requires i < |s|
    ensures XorAll(s) == XorAll(s[..i]) ^ s[i] ^ XorAll(s[i + 1..])
  {
    hide XorAll;
    XorAllConcat(s[..i], [s[i]]);
    XorAllConcat(s[..i] + [s[i]], s[i + 1..]);
    XorAllOne(s[i]);
    assert s == s[..i] + [s[i]] + s[i + 1..];
  }

  lemma XorAllOne(x: byte)
    ensures XorAll([x]) == x
  {
    assert [x][..0] == [];
  }

  lemma XorAllUpdate(s: seq<byte>, i: nat, y: byte)
    requires i < |s|
    ensures XorAll(s[i := y]) == XorAll(s) ^ s[i] ^ y
  {
    var t := s[i := y];
    XorAllSplit(s, i);
    XorAllSplit(t, i);
    assert t[..i] == s[..i] && t[i + 1..] == s[i + 1..];
  }

  /** The order of the covered bytes is irrelevant. */
  lemma {:induction false} XorAllPermutation(a: seq<byte>, b: seq<byte>)
    requires multiset(a) == multiset(b)
    ensures XorAll(a) == XorAll(b)
    decreases |a|
  {
    assert |a| == |multiset(a)| == |multiset(b)| == |b|;
    if a != [] {
      var x := a[0];
      assert x in multiset(b);
      var k :| 0 <= k < |b| && b[k] == x;
      var b' := b[..k] + b[k + 1..];
      assert a == [x] + a[1..];
      assert b == b[..k] + [x] + b[k + 1..];
      assert multiset(a[1..]) == multiset(a) - multiset{x};
      assert multiset(b') == multiset(b) - multiset{x};
      XorAllPermutation(a[1..], b');
      XorAllConcat([x], a[1..]);
      XorAllSplit(b, k);
      XorAllConcat(b[..k], b[k + 1..]);
      assert [x][..0] == [];
    }
  }

  function ZipXor(a: seq<byte>, b: seq<byte>): seq<byte>
    requires |a| == |b|
  {
    seq(|a|, i requires 0 <= i < |a| => a[i] ^ b[i])
  }

  lemma {:induction false} XorAllZip(a: seq<byte>, b: seq<byte>)
    requires |a| == |b|
    ensures XorAll(ZipXor(a, b)) == XorAll(a) ^ XorAll(b)
  {
    if a != [] {
      var n := |a| - 1;
      XorAllZip(a[..n], b[..n]);
      assert ZipXor(a, b)[..n] == ZipXor(a[..n], b[..n]);
    }
  }

  // ------------------------------------------------------------ the checksum

  /** Replacing byte `i` moves the checksum by exactly old XOR new when the byte is
      covered, and not at all when it is byte 0, 1, 88 or 89. */
  lemma CrcUpdate(b: Wire, i: nat, y: byte)
    requires i < 90
    ensures Crc(b[i := y]) == if Covered(i) then Crc(b) ^ b[i] ^ y else Crc(b)
  {
    var b' := b[i := y];
    if Covered(i) {
      assert b'[2..88] == b[2..88][i - 2 := y];
      XorAllUpdate(b[2..88], i - 2, y);
    } else {
      assert b'[2..88] == b[2..88];
    }
  }

  /** Every change to one covered byte of a valid frame is detected. */
  lemma SingleByteErrorDetected(b: Wire, i: nat, y: byte)
    requires VerifyCrc(b) && Covered(i) && y != b[i]
    ensures !VerifyCrc(b[i := y])
  {
    CrcUpdate(b, i, y);
    XorDiffers(Crc(b), b[i], y);
  }

  lemma XorDiffers(c: byte, x: byte, y: byte)
    requires x != y
    ensures c ^ x ^ y != c
  {
  }

  /** The transaction id (byte 1) and the status (byte 0) never affect validity. */
  lemma HeaderBytesInvisible(b: Wire, status: byte, tid: byte)
    ensures VerifyCrc(b[0 := status][1 := tid]) <==> VerifyCrc(b)
  {
    CrcUpdate(b, 0, status);
    CrcUpdate(b[0 := status], 1, tid);
  }

  /** The checksum is linear: it distributes over byte-wise XOR of two frames. */
  lemma CrcDistributes(a: Wire, b: Wire)
    ensures Crc(ZipXor(a, b)) == Crc(a) ^ Crc(b)
  {
    XorAllZip(a[2..88], b[2..88]);
    assert ZipXor(a, b)[2..88] == ZipXor(a[2..88], b[2..88]);
  }

  /** Permuting the covered bytes leaves the checksum alone: it detects no reordering. */
  lemma CrcPermutation(a: Wire, b: Wire)
    requires multiset(a[2..88]) == multiset(b[2..88])
    ensures Crc(a) == Crc(b)
  {
    XorAllPermutation(a[2..88], b[2..88]);
  }
}
