/** Little-endian integers, as cpu_to_le64 and its relatives lay them out. */
module LittleEndian {
  import opened Prelude

  function Pow256(n: nat): (p: nat)
    ensures p > 0
  {
    if n == 0 then 1 else 256 * Pow256(n - 1)
  }

  lemma Widths()
    ensures Pow256(4) == U32 && Pow256(8) == U64
  {
    assert Pow256(4) == U32;
    assert Pow256(8) == 256 * (256 * (256 * (256 * Pow256(4))));
  }

  function ToLe(v: nat, n: nat): (s: seq<byte>)
    ensures |s| == n
  {
    if n == 0 then [] else [(v % 256) as byte] + ToLe(v / 256, n - 1)
  }

  function FromLe(s: seq<byte>): nat {
    if s == [] then 0 else s[0] as nat + 256 * FromLe(s[1..])
  }

  lemma {:induction false} DecodeEncoded(v: nat, n: nat)
    requires v < Pow256(n)
    ensures FromLe(ToLe(v, n)) == v
  {
    if n > 0 {
      DecodeEncoded(v / 256, n - 1);
      assert ToLe(v, n)[1..] == ToLe(v / 256, n - 1);
    }
  }

  lemma {:induction false} EncodeDecoded(s: seq<byte>)
    ensures FromLe(s) < Pow256(|s|)
    ensures ToLe(FromLe(s), |s|) == s
  {
    if s != [] {
      EncodeDecoded(s[1..]);
      assert (s[0] as nat + 256 * FromLe(s[1..])) / 256 == FromLe(s[1..]);
      assert s == [s[0]] + s[1..];
    }
  }

  lemma LowestByte(v: nat, n: nat, low: byte, rest: nat)
    requires n > 0 && v == low as nat + 256 * rest
    ensures ToLe(v, n) == [low] + ToLe(rest, n - 1)
  {
    Digits(low as nat, rest);
    assert (v % 256) as byte == low;
  }

  lemma Digits(low: nat, rest: nat)
    requires low < 256
    ensures (low + 256 * rest) % 256 == low && (low + 256 * rest) / 256 == rest
  {
  }

  /** Bytes and the numbers they stand for, one byte more at a time. */
  lemma BytesOf(s: seq<byte>, vs: seq<nat>)
    requires |vs| == |s| + 1 && vs[|s|] == 0
    requires forall i | 0 <= i < |s| :: vs[i] == s[i] as nat + 256 * vs[i + 1]
    ensures ToLe(vs[0], |s|) == s
  {
    hide ToLe;
    if s == [] {
      assert ToLe(0, 0) == [];
    } else {
      LowestByte(vs[0], |s|, s[0], vs[1]);
      BytesOf(s[1..], vs[1..]);
    }
  }

  /** The first byte is the lowest. */
  lemma FourBytes(s: seq<byte>)
    requires |s| == 4
    ensures FromLe(s) == s[0] as nat + 0x100 * s[1] as nat + 0x1_0000 * s[2] as nat + 0x100_0000 * s[3] as nat
  {
    assert FromLe(s[3..]) == s[3] as nat;
    assert s[2..][1..] == s[3..];
    assert FromLe(s[2..]) == s[2] as nat + 256 * s[3] as nat;
    assert s[1..][1..] == s[2..];
  }

  /** The n-byte field at an offset of a block. */
  function Field(block: seq<byte>, offset: nat, n: nat): nat
    requires offset + n <= |block|
  {
    FromLe(block[offset..offset + n])
  }

  /** A field that holds an encoded value. */
  lemma FieldHolds(block: seq<byte>, offset: nat, n: nat, v: nat)
    requires offset + n <= |block| && block[offset..offset + n] == ToLe(v, n) && v < Pow256(n)
    ensures Field(block, offset, n) == v
  {
    DecodeEncoded(v, n);
  }
}
