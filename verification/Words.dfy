/** Operations on 32-bit words. */
module Words {
  import opened Bits
  import opened Bytes

  function Add32(x: nat, y: nat): u32 { (x + y) % 0x1_0000_0000 }

  /** Word by word. */
  function AddWords(a: seq<u32>, b: seq<u32>): (c: seq<u32>)
    requires |a| == |b|
    ensures |c| == |a|
  {
    seq(|a|, i requires 0 <= i < |a| => Add32(a[i], b[i]))
  }

  function Xor32(x: u32, y: u32): u32 {
    PowersOfTwo();
    XorBelow(x, y, 32);
    Xor(x, y)
  }

  function And32(x: u32, y: u32): u32 {
    AndAtMost(x, y);
    And(x, y)
  }

  function Or32(x: u32, y: u32): u32 {
    PowersOfTwo();
    OrBelow(x, y, 32);
    Or(x, y)
  }

  function Not32(x: u32): u32 { 0xffff_ffff - x }

  function Shr32(x: u32, n: nat): u32 { Shr(x, n) }

  function Shl32(x: u32, n: nat): u32 { Shl(x, n) % 0x1_0000_0000 }

  function Rotr(x: u32, n: nat): u32
    requires n <= 32
  {
    Or32(Shr32(x, n), Shl32(x, 32 - n))
  }

  function Rotl(x: u32, n: nat): u32
    requires n <= 32
  {
    Or32(Shl32(x, n), Shr32(x, 32 - n))
  }

  /** The big-endian word at offset i. */
  function LoadBE32(s: seq<byte>, i: nat): u32
    requires i + 4 <= |s|
  {
    s[i] as nat * 0x100_0000 + s[i + 1] as nat * 0x1_0000 + s[i + 2] as nat * 0x100 + s[i + 3] as nat
  }

  /** The code joins the shifted bytes, the first one highest. */
  lemma LoadBE32Joins(s: seq<byte>, i: nat)
    requires i + 4 <= |s|
    ensures Or(Or(Or(Shl(s[i], 24), Shl(s[i + 1], 16)), Shl(s[i + 2], 8)), s[i + 3]) == LoadBE32(s, i)
  {
    hide Or;
    var a, b, c, d := s[i], s[i + 1], s[i + 2], s[i + 3];
    ShiftedBytes(c, b, a);
    OrCommutes(Shl(a, 24), Shl(b, 16));
    OrDisjoint(Shl(b, 16), a, 24);
    var ab: nat, abc: nat := b as nat + 0x100 * a as nat, c as nat + 0x100 * b as nat + 0x1_0000 * a as nat;
    ShiftedBytes(abc, ab, 0);
    OrCommutes(Shl(ab, 16), Shl(c, 8));
    OrDisjoint(Shl(c, 8), ab, 16);
    OrCommutes(Shl(abc, 8), d);
    OrDisjoint(d, abc, 8);
  }
}
