/** Bytes and big-endian words, shared by the wire and file formats. */
module Bytes {
  newtype Byte = b: int | 0 <= b < 256

  function Min(a: nat, b: nat): nat { if a < b then a else b }

  /** Big-endian value of a byte string (ntohs, ntohl). */
  function Decode(bs: seq<Byte>): (n: nat) {
    if bs == [] then 0 else 256 * Decode(bs[..|bs| - 1]) + bs[|bs| - 1] as nat
  }

  /** Two low-order bytes, most significant first (htons of a value cut to 16 bits). */
  function Encode16(n: nat): (bs: seq<Byte>)
    ensures |bs| == 2
  {
    [(n / 256 % 256) as Byte, (n % 256) as Byte]
  }

  /** Four low-order bytes, most significant first (htonl). */
  function Encode32(n: nat): (bs: seq<Byte>)
    ensures |bs| == 4
  {
    [(n / 256 / 256 / 256 % 256) as Byte, (n / 256 / 256 % 256) as Byte, (n / 256 % 256) as Byte, (n % 256) as Byte]
  }

  lemma Decode2(bs: seq<Byte>)
    requires |bs| == 2
    ensures Decode(bs) == 256 * bs[0] as nat + bs[1] as nat
  {
    assert bs[..1][..0] == [];
    assert Decode(bs[..1]) == 256 * Decode(bs[..1][..0]) + bs[..1][0] as nat;
  }

  lemma Decode4(bs: seq<Byte>)
    requires |bs| == 4
    ensures Decode(bs) == 0x100_0000 * bs[0] as nat + 0x1_0000 * bs[1] as nat + 256 * bs[2] as nat + bs[3] as nat
  {
    assert bs[..3][..2] == bs[..2];
    Decode2(bs[..2]);
    assert Decode(bs[..3]) == 256 * Decode(bs[..3][..2]) + bs[..3][2] as nat;
  }

  lemma Encode16RoundTrip(n: nat)
    requires n < 0x1_0000
    ensures Decode(Encode16(n)) == n
  {
    Decode2(Encode16(n));
  }

  lemma Encode32RoundTrip(n: nat)
    requires n < 0x1_0000_0000
    ensures Decode(Encode32(n)) == n
  {
    Decode4(Encode32(n));
    var a := n / 256;
    var b := a / 256;
    assert n == 256 * a + n % 256 && a == 256 * b + a % 256 && b == 256 * (b / 256) + b % 256;
    assert b / 256 < 256;
  }
}
