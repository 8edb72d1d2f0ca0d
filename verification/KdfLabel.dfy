/** The MLS variable-length integer and the KDFLabel structure of RFC 9420, and the expansion keyed by it. */
module KdfLabelSpec {
  import opened Bits
  import opened Bytes

  const VARINT_LIMIT: nat := 0x4000_0000

  /** The bytes the writer stores, for any 32-bit value. */
  function VarintBytes(value: u32): (s: seq<byte>)
    ensures |s| == VarintSize(value)
  {
    if value < 64 then [value]
    else if value < 16384 then [Tagged(0x40, value / 0x100), value % 0x100]
    else [Tagged(0x80, value / 0x100_0000), value / 0x1_0000 % 0x100, value / 0x100 % 0x100, value % 0x100]
  }

  function VarintSize(value: u32): nat { if value < 64 then 1 else if value < 16384 then 2 else 4 }

  function Tagged(tag: byte, high: byte): byte { ByteOr(tag, high) }

  /** A reader as section 2.1.2 of RFC 9420 describes it: the top two bits give the size, and the shortest
      form is required. The value and the number of bytes taken. */
  function ReadVarint(s: seq<byte>): Option<(nat, nat)> {
    if s == [] then None
    else if s[0] < 0x40 then Some((s[0] as nat, 1))
    else if s[0] < 0x80 then
      if |s| < 2 then None
      else
        var v := (s[0] - 0x40) as nat * 0x100 + s[1] as nat;
        if v < 64 then None else Some((v, 2))
    else if s[0] < 0xc0 then
      if |s| < 4 then None
      else
        var v := (s[0] - 0x80) as nat * 0x100_0000 + s[1] as nat * 0x1_0000 + s[2] as nat * 0x100 + s[3] as nat;
        if v < 16384 then None else Some((v, 4))
    else None
  }

  lemma TagBits(high: byte)
    ensures high < 0x40 ==> Tagged(0x40, high) == 0x40 + high
    ensures high < 0x80 ==> Tagged(0x80, high) == 0x80 + high
    ensures high >= 0x80 ==> Tagged(0x80, high) == high
  {
    hide Or;
    assert Pow2(6) == 64 && Pow2(7) == 128;
    ShlIsProduct(1, 6);
    ShlIsProduct(1, 7);
    ShlIsProduct(2, 6);
    OrCommutes(high, 0x40);
    OrCommutes(high, 0x80);
    if high < 0x40 {
      OrDisjoint(high, 1, 6);
    }
    if high < 0x80 {
      OrDisjoint(high, 1, 7);
    } else {
      OrTop(high);
    }
  }

  /** The top bit of a byte that has it adds nothing. */
  lemma OrTop(high: byte)
    requires high >= 0x80
    ensures Or(0x80, high) == high
  {
    var lo := high - 0x80;
    assert Pow2(7) == 128;
    ShlIsProduct(1, 7);
    OrSplit(0, 1, lo, 1, 7);
    OrUnfold(0, lo);
    assert Or(1, 1) == 1;
  }

  lemma ReadTwo(value: u32, rest: seq<byte>)
    requires 64 <= value < 16384
    ensures ReadVarint(VarintBytes(value) + rest) == Some((value as nat, 2))
  {
    hide Tagged;
    TagBits(value / 0x100);
    var s := VarintBytes(value) + rest;
    assert s[0] == 0x40 + value / 0x100 && s[1] == value % 0x100;
  }

  lemma ReadFour(value: u32, rest: seq<byte>)
    requires value >= 16384
    ensures ReadVarint(VarintBytes(value) + rest) == Some((value as nat, 4)) <==> value < VARINT_LIMIT
  {
    hide Tagged;
    var high := value / 0x100_0000;
    TagBits(high);
    var s := VarintBytes(value) + rest;
    assert s[0] == Tagged(0x80, high) && s[1] == value / 0x1_0000 % 0x100;
    assert s[2] == value / 0x100 % 0x100 && s[3] == value % 0x100;
    FourBytes(value, high, s[1], s[2], s[3]);
    hide VarintBytes;
  }

  lemma FourBytes(value: u32, b0: byte, b1: byte, b2: byte, b3: byte)
    requires b0 == value / 0x100_0000 && b1 == value / 0x1_0000 % 0x100
    requires b2 == value / 0x100 % 0x100 && b3 == value % 0x100
    ensures value == b0 as nat * 0x100_0000 + b1 as nat * 0x1_0000 + b2 as nat * 0x100 + b3 as nat
  {
    var x := value / 0x100;
    var y := x / 0x100;
    assert y == value / 0x1_0000 && y / 0x100 == value / 0x100_0000;
  }

  /** The reader recovers what the writer stored exactly when the value fits 30 bits. */
  lemma ReadWritten(value: u32, rest: seq<byte>)
    ensures ReadVarint(VarintBytes(value) + rest) == Some((value as nat, VarintSize(value))) <==> value < VARINT_LIMIT
  {
    if 64 <= value < 16384 {
      ReadTwo(value, rest);
      hide VarintBytes, ReadVarint;
    } else if value >= 16384 {
      ReadFour(value, rest);
      hide VarintBytes, ReadVarint;
    }
  }

  /** From 2^30 on the size bits are overwritten: two values share their bytes. */
  lemma VarintCollision()
    ensures VarintBytes(0x8000_4000) == VarintBytes(0x4000)
  {
    hide Tagged;
    TagBits(0x80);
    TagBits(0);
    assert VarintBytes(0x8000_4000) == [Tagged(0x80, 0x80), 0, 0x40, 0];
    assert VarintBytes(0x4000) == [Tagged(0x80, 0), 0, 0x40, 0];
  }

  /** Distinct values below 2^30 are never the beginning of one another. */
  lemma VarintPrefixFree(v: u32, w: u32, a: seq<byte>, b: seq<byte>)
    requires v < VARINT_LIMIT && w < VARINT_LIMIT
    requires VarintBytes(v) + a == VarintBytes(w) + b
    ensures v == w && a == b
  {
    hide VarintBytes, ReadVarint;
    ReadWritten(v, a);
    ReadWritten(w, b);
    assert a == (VarintBytes(v) + a)[VarintSize(v)..];
    assert b == (VarintBytes(w) + b)[VarintSize(w)..];
  }

  /** opaque x<V>. */
  function Vector(x: seq<byte>): seq<byte>
    requires |x| < 0x1_0000_0000
  {
    VarintBytes(|x|) + x
  }

  // "MLS 1.0 " in ASCII.
  const PREFIX: seq<byte> := [0x4d, 0x4c, 0x53, 0x20, 0x31, 0x2e, 0x30, 0x20]

  /** struct { uint16 length; opaque label<V>; opaque context<V>; } KDFLabel. */
  function LabelBytes(length: nat, name: seq<byte>, context: seq<byte>): seq<byte>
    requires |PREFIX + name| < 0x1_0000_0000 && |context| < 0x1_0000_0000
  {
    [length / 0x100 % 0x100, length % 0x100] + Vector(PREFIX + name) + Vector(context)
  }

  /** Vectors of 30-bit length end where they say they end. */
  lemma VectorPrefixFree(x: seq<byte>, y: seq<byte>, a: seq<byte>, b: seq<byte>)
    requires |x| < VARINT_LIMIT && |y| < VARINT_LIMIT
    requires Vector(x) + a == Vector(y) + b
    ensures x == y && a == b
  {
    hide VarintBytes;
    assert VarintBytes(|x|) + (x + a) == Vector(x) + a;
    assert VarintBytes(|y|) + (y + b) == Vector(y) + b;
    VarintPrefixFree(|x|, |y|, x + a, y + b);
    assert x == (x + a)[..|x|] && y == (y + b)[..|y|];
    assert a == (x + a)[|x|..] && b == (y + b)[|y|..];
  }

  /** What a reader of the structure finds: a big-endian length, a label that begins with "MLS 1.0 ", the context. */
  lemma LabelReads(length: nat, name: seq<byte>, context: seq<byte>)
    requires length < 0x1_0000 && |name| + 8 < VARINT_LIMIT && |context| < VARINT_LIMIT
    ensures |PREFIX| == 8
    ensures var s := LabelBytes(length, name, context);
      var n := |name| + 8;
      var at := 2 + VarintSize(n);
      var end := at + n + VarintSize(|context|);
      && |s| == end + |context| && BE(s[..2]) == length
      && ReadVarint(s[2..]) == Some((n, at - 2)) && s[at..at + 8] == Ascii("MLS 1.0 ") && s[at + 8..at + n] == name
      && ReadVarint(s[at + n..]) == Some((|context|, end - at - n)) && s[end..] == context
  {
    hide VarintBytes, ReadVarint, BE;
    var s := LabelBytes(length, name, context);
    var n := |name| + 8;
    var at := 2 + VarintSize(n);
    var end := at + n + VarintSize(|context|);
    var v, w := VarintBytes(n), VarintBytes(|context|);
    LengthReads(length);
    ReadWritten(n, PREFIX + name + Vector(context));
    ReadWritten(|context|, context);
    PrefixText();
    assert s[..2] == [length / 0x100 % 0x100, length % 0x100];
    assert s[2..] == v + (PREFIX + name + Vector(context));
    assert s[at..at + 8] == PREFIX && s[at + 8..at + n] == name;
    assert s[at + n..] == w + context && s[end..] == context;
  }

  lemma PrefixText()
    ensures PREFIX == Ascii("MLS 1.0 ")
  {
  }

  lemma LengthReads(length: nat)
    requires length < 0x1_0000
    ensures BE([length / 0x100 % 0x100, length % 0x100]) == length
  {
    var s: seq<byte> := [length / 0x100 % 0x100, length % 0x100];
    assert s[..1] == [length / 0x100 % 0x100] && s[..1][..0] == [];
    assert BE(s[..1]) == length / 0x100;
  }

  /** Two derivations with the same serialised label are the same derivation. */
  lemma LabelInjective(length: nat, name: seq<byte>, context: seq<byte>,
                       length': nat, name': seq<byte>, context': seq<byte>)
    requires length < 0x1_0000 && length' < 0x1_0000
    requires |PREFIX + name| < VARINT_LIMIT && |PREFIX + name'| < VARINT_LIMIT
    requires |context| < VARINT_LIMIT && |context'| < VARINT_LIMIT
    requires LabelBytes(length, name, context) == LabelBytes(length', name', context')
    ensures length == length' && name == name' && context == context'
  {
    hide Vector;
    var s, s' := LabelBytes(length, name, context), LabelBytes(length', name', context');
    assert s[0] == length / 0x100 && s[1] == length % 0x100;
    assert s'[0] == length' / 0x100 && s'[1] == length' % 0x100;
    assert s[2..] == Vector(PREFIX + name) + Vector(context);
    assert s'[2..] == Vector(PREFIX + name') + Vector(context');
    VectorPrefixFree(PREFIX + name, PREFIX + name', Vector(context), Vector(context'));
    assert name == (PREFIX + name)[8..] && name' == (PREFIX + name')[8..];
    assert Vector(context) + [] == Vector(context') + [];
    VectorPrefixFree(context, context', [], []);
  }
}

module KdfLabel {
  import opened Bytes
  import opened HkdfSpec
  import Hkdf
  import opened KdfLabelSpec

  /** Stores the integer at the given offset and returns how many bytes it took. */
  method VarintWrite(out: array<byte>, at: nat, value: u32) returns (n: nat)
    requires at + VarintSize(value) <= out.Length
    modifies out
    ensures n == VarintSize(value)
    ensures out[..at + n] == old(out[..at]) + VarintBytes(value)
    ensures out[at + n..] == old(out[at + n..])
  {
    hide Tagged;
    if value < 64 {
      out[at] := value;
      return 1;
    }
    if value < 16384 {
      out[at] := Tagged(0x40, value / 0x100);
      out[at + 1] := value % 0x100;
      return 2;
    }
    out[at] := Tagged(0x80, value / 0x100_0000);
    out[at + 1] := value / 0x1_0000 % 0x100;
    out[at + 2] := value / 0x100 % 0x100;
    out[at + 3] := value % 0x100;
    n := 4;
  }

  /** Stores a length and then the two parts it counts. */
  method PutVector(out: array<byte>, at: nat, first: seq<byte>, second: seq<byte>) returns (n: nat)
    requires |first| + |second| < 0x1_0000_0000
    requires at + VarintSize(|first| + |second|) + |first| + |second| <= out.Length
    modifies out
    ensures n == |Vector(first + second)| && at + n <= out.Length
    ensures out[..at + n] == old(out[..at]) + Vector(first + second)
  {
    hide VarintBytes;
    n := VarintWrite(out, at, |first| + |second|);
    var k := Put(out, at + n, first);
    n := n + k;
    k := Put(out, at + n, second);
    n := n + k;
  }

  /** The label on the stack. */
  const STACK_INFO: nat := 256

  /** The bytes laid out for a label: everything that is copied, behind the length of the name as 32 bits have it. */
  function LaidOut(nameLen: u32, contextLen: u32): nat {
    2 + VarintSize(FullLength(nameLen)) + |PREFIX| + nameLen + VarintSize(contextLen) + contextLen
  }

  /** The length of prefix and name, in 32 bits. */
  function FullLength(nameLen: u32): u32 { (|PREFIX| + nameLen) % 0x1_0000_0000 }

  /** The size computed beforehand, in 32 bits. */
  function Need(nameLen: u32, contextLen: u32): u32 {
    (2 + VarintSize(FullLength(nameLen)) + FullLength(nameLen) + VarintSize(contextLen) + contextLen) % 0x1_0000_0000
  }

  /** The block the label is laid out in, when one can be had. */
  function Capacity(nameLen: u32, contextLen: u32): nat {
    if Need(nameLen, contextLen) > STACK_INFO then Need(nameLen, contextLen) else STACK_INFO
  }

  /** Nothing is laid out beyond a block: it holds all, or the call fails before. */
  predicate StaysInside(nameLen: u32, contextLen: u32) {
    LaidOut(nameLen, contextLen) <= Capacity(nameLen, contextLen) || !Allocates(Need(nameLen, contextLen))
  }

  /** That is so exactly while the size does not wrap, or wraps to one that cannot be allocated. */
  lemma NeedExact(nameLen: u32, contextLen: u32)
    ensures StaysInside(nameLen, contextLen)
            <==> LaidOut(nameLen, contextLen) < 0x1_0000_0000 || !Allocates(Need(nameLen, contextLen))
    ensures LaidOut(nameLen, contextLen) < 0x1_0000_0000 ==>
              Need(nameLen, contextLen) == LaidOut(nameLen, contextLen) && FullLength(nameLen) == |PREFIX| + nameLen
  {
    var full := |PREFIX| + nameLen;
    var f := FullLength(nameLen);
    var size := 2 + VarintSize(f) + f + VarintSize(contextLen) + contextLen;
    if full < 0x1_0000_0000 {
      Bits.DivModUnique(full, 0x1_0000_0000, 0, full);
    } else {
      Bits.DivModUnique(full, 0x1_0000_0000, 1, full - 0x1_0000_0000);
    }
    if size < 0x1_0000_0000 {
      Bits.DivModUnique(size, 0x1_0000_0000, 0, size);
    } else if size < 0x2_0000_0000 {
      Bits.DivModUnique(size, 0x1_0000_0000, 1, size - 0x1_0000_0000);
    } else {
      Bits.DivModUnique(size, 0x1_0000_0000, 2, size - 0x2_0000_0000);
    }
  }

  /** Serialises the label into a block of at least the size computed beforehand, and fills exactly that size. Fails
      when the block cannot be allocated. */
  method Serialise(name: seq<byte>, context: seq<byte>, outLen: nat) returns (ok: bool, info: array<byte>, n: nat)
    requires |name| < 0x1_0000_0000 && |context| < 0x1_0000_0000 && StaysInside(|name|, |context|)
    ensures ok <==> LaidOut(|name|, |context|) < 0x8000_0000
    ensures ok ==> n == LaidOut(|name|, |context|) <= info.Length && info[..n] == LabelBytes(outLen, name, context)
  {
    hide VarintBytes;
    NeedExact(|name|, |context|);
    var need := Need(|name|, |context|);
    var capacity := STACK_INFO;
    if need > capacity {
      if !Allocates(need) {
        return false, new byte[0], 0;
      }
      capacity := need;
    }
    info := new byte[capacity];
    info[0] := outLen / 0x100 % 0x100;
    info[1] := outLen % 0x100;
    n := 2;
    assert info[..n] == [outLen / 0x100 % 0x100, outLen % 0x100];
    var k := PutVector(info, n, PREFIX, name);
    n := n + k;
    k := PutVector(info, n, context, []);
    n := n + k;
    assert context + [] == context;
    ok := true;
  }

  /** KDF.ExpandWithLabel. Refuses what the output length or the two blocks it needs do not allow. */
  method ExpandWithLabel(secret: seq<byte>, name: seq<byte>, context: seq<byte>, out: array<byte>, outLen: nat)
    returns (ok: bool)
    requires |name| < 0x1_0000_0000 && |context| < 0x1_0000_0000 && StaysInside(|name|, |context|)
    requires outLen <= out.Length
    modifies out
    ensures ok <==> outLen <= LIMIT && LaidOut(|name|, |context|) + 33 < 0x8000_0000
    ensures !ok ==> out[..] == old(out[..])
    ensures ok ==> out[..] == Okm(secret, LabelBytes(outLen, name, context), outLen) + old(out[outLen..])
  {
    hide Okm, LabelBytes;
    var made, info, n := Serialise(name, context, outLen);
    if !made {
      return false;
    }
    ok := Hkdf.Expand(secret, info[..n], out, outLen);
  }
}
