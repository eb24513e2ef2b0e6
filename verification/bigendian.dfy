/**
  Unsigned integers as fixed-width big-endian byte strings, the encoding that
  `encoding/binary` with `binary.BigEndian` uses for each integer field.
 */
module BigEndian {
  import opened GoInt

  /** 256 to the power w: one more than the largest w-byte value. */
  function Pow256(w: nat): (r: nat)
    ensures r >= 1
  {
    if w == 0 then 1 else 256 * Pow256(w - 1)
  }

  /** The low w bytes of x, most significant first. */
  function Encode(x: nat, w: nat): (r: seq<uint8>)
    ensures |r| == w
  {
    if w == 0 then [] else Encode(x / 256, w - 1) + [x % 256]
  }

  /** The value of a big-endian byte string; it always fits in |s| bytes. */
  function Decode(s: seq<uint8>): (x: nat)
    ensures x < Pow256(|s|)
  {
    if |s| == 0 then 0 else Decode(s[..|s| - 1]) * 256 + s[|s| - 1]
  }

  /** Decoding the w-byte image of a value that fits in w bytes gives the value back. */
  lemma {:induction false} DecodeEncode(x: nat, w: nat)
    requires x < Pow256(w)
    ensures Decode(Encode(x, w)) == x
  {
    if w > 0 {
      var r := Encode(x, w);
      assert r[..w - 1] == Encode(x / 256, w - 1);
      QuotientFits(x, w);
      DecodeEncode(x / 256, w - 1);
    }
  }

  /** Dropping the last byte of a value that fits in w bytes leaves one that fits in w - 1. */
  lemma QuotientFits(x: nat, w: nat)
    requires w > 0 && x < Pow256(w)
    ensures x / 256 < Pow256(w - 1)
    ensures x == (x / 256) * 256 + x % 256
  {
  }

  /** Every byte string is the image of its own value. */
  lemma {:induction false} EncodeDecode(s: seq<uint8>)
    ensures Encode(Decode(s), |s|) == s
  {
    if |s| > 0 {
      var init := s[..|s| - 1];
      EncodeDecode(init);
      assert Decode(s) / 256 == Decode(init);
      assert s == init + [s[|s| - 1]];
    }
  }

  /** The widths the packet uses, as powers of two. */
  lemma Widths()
    ensures Pow256(1) == 0x100
    ensures Pow256(2) == 0x1_0000
    ensures Pow256(4) == TWO_32
    ensures Pow256(8) == TWO_64
  {
    assert Pow256(4) == 0x1_0000_0000;
  }

  /** w zero bytes. */
  function Zeros(w: nat): (r: seq<uint8>)
    ensures |r| == w
    ensures forall i :: 0 <= i < w ==> r[i] == 0
  {
    seq(w, i => 0)
  }

  /** Zero is encoded as zero bytes at every width. */
  lemma {:induction false} EncodeZero(w: nat)
    ensures Encode(0, w) == Zeros(w)
  {
    if w > 0 {
      EncodeZero(w - 1);
      assert Zeros(w - 1) + [0] == Zeros(w);
    }
  }

  /** Two adjacent runs of zero bytes in s form one run. */
  lemma ZerosJoin(s: seq<uint8>, i: nat, j: nat, k: nat)
    requires i <= j <= k <= |s|
    requires s[i..j] == Zeros(j - i) && s[j..k] == Zeros(k - j)
    ensures s[i..k] == Zeros(k - i)
  {
    assert s[i..k] == s[i..j] + s[j..k];
  }
}
