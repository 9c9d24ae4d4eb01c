/** Bytes and the little-endian words the firmware stores in them. */
module Words {
  newtype byte = x: int | 0 <= x < 0x100

  const TWO_TO_THE_16: nat := 0x1_0000
  const TWO_TO_THE_32: nat := 0x1_0000_0000
  const TWO_TO_THE_64: nat := 0x1_0000_0000_0000_0000

  function Fill(value: byte, length: nat): (s: seq<byte>)
    ensures |s| == length
    ensures forall i :: 0 <= i < length ==> s[i] == value
  {
    seq(length, _ => value)
  }

  function Min(a: nat, b: nat): nat {
    if a < b then a else b
  }

  function U16(b: seq<byte>): (x: nat)
    requires |b| == 2
    ensures x < TWO_TO_THE_16
  {
    b[0] as nat + 0x100 * (b[1] as nat)
  }

  function U32(b: seq<byte>): (x: nat)
    requires |b| == 4
    ensures x < TWO_TO_THE_32
  {
    b[0] as nat + 0x100 * (b[1] as nat) + 0x1_0000 * (b[2] as nat) + 0x100_0000 * (b[3] as nat)
  }

  function StoreU16(x: nat): (b: seq<byte>)
    requires x < TWO_TO_THE_16
    ensures |b| == 2
  {
    [(x % 0x100) as byte, (x / 0x100 % 0x100) as byte]
  }

  function StoreU32(x: nat): (b: seq<byte>)
    requires x < TWO_TO_THE_32
    ensures |b| == 4
  {
    [(x % 0x100) as byte, (x / 0x100 % 0x100) as byte,
     (x / 0x1_0000 % 0x100) as byte, (x / 0x100_0000 % 0x100) as byte]
  }

  lemma U16Store(x: nat)
    requires x < TWO_TO_THE_16
    ensures U16(StoreU16(x)) == x
  {
  }

  lemma U32Store(x: nat)
    requires x < TWO_TO_THE_32
    ensures U32(StoreU32(x)) == x
  {
    assert x == x % 0x100 + 0x100 * (x / 0x100);
    assert x / 0x100 == x / 0x100 % 0x100 + 0x100 * (x / 0x1_0000);
    assert x / 0x1_0000 == x / 0x1_0000 % 0x100 + 0x100 * (x / 0x100_0000);
    assert x / 0x100_0000 % 0x100 == x / 0x100_0000;
  }

  lemma StoreU16Load(b: seq<byte>)
    requires |b| == 2
    ensures StoreU16(U16(b)) == b
  {
  }

  lemma StoreU32Load(b: seq<byte>)
    requires |b| == 4
    ensures StoreU32(U32(b)) == b
  {
    var x := U32(b);
    assert x / 0x100 == b[1] as nat + 0x100 * (b[2] as nat) + 0x1_0000 * (b[3] as nat);
    assert x / 0x1_0000 == b[2] as nat + 0x100 * (b[3] as nat);
    assert x / 0x100_0000 == b[3] as nat;
  }

  /** Equal words are equal bytes. */
  lemma U32Injective(a: seq<byte>, b: seq<byte>)
    requires |a| == |b| == 4
    requires U32(a) == U32(b)
    ensures a == b
  {
    StoreU32Load(a);
    StoreU32Load(b);
  }

  // ----- the layout of a packed structure -----

  function Weight(k: nat): (w: nat)
    ensures w > 0
  {
    if k == 0 then 1 else 0x100 * Weight(k - 1)
  }

  /** A little-endian field: its k-th byte is the digit of weight 256^k. */
  predicate Field(bytes: seq<byte>, at: nat, size: nat, x: nat) {
    at + size <= |bytes| && forall k :: 0 <= k < size ==> bytes[at + k] as nat == x / Weight(k) % 0x100
  }

  lemma StoredField32(x: nat, b: seq<byte>)
    requires x < TWO_TO_THE_32 && b == StoreU32(x)
    ensures Field(b, 0, 4, x)
  {
    assert Weight(1) == 0x100 && Weight(2) == 0x1_0000 && Weight(3) == 0x100_0000;
  }

  lemma StoredField16(x: nat, b: seq<byte>)
    requires x < TWO_TO_THE_16 && b == StoreU16(x)
    ensures Field(b, 0, 2, x)
  {
    assert Weight(1) == 0x100;
  }

  lemma FieldWithin(bytes: seq<byte>, at: nat, size: nat, x: nat)
    requires at + size <= |bytes| && Field(bytes[at..at + size], 0, size, x)
    ensures Field(bytes, at, size, x)
  {
    forall k | 0 <= k < size
      ensures bytes[at + k] as nat == x / Weight(k) % 0x100
    {
      assert bytes[at..at + size][0 + k] == bytes[at + k];
    }
  }

  /** A 32-bit field stored at a place. */
  lemma Field32(bytes: seq<byte>, at: nat, x: nat)
    requires x < TWO_TO_THE_32 && at + 4 <= |bytes| && bytes[at..at + 4] == StoreU32(x)
    ensures Field(bytes, at, 4, x)
  {
    StoredField32(x, bytes[at..at + 4]);
    FieldWithin(bytes, at, 4, x);
  }

  lemma Field16(bytes: seq<byte>, at: nat, x: nat)
    requires x < TWO_TO_THE_16 && at + 2 <= |bytes| && bytes[at..at + 2] == StoreU16(x)
    ensures Field(bytes, at, 2, x)
  {
    StoredField16(x, bytes[at..at + 2]);
    FieldWithin(bytes, at, 2, x);
  }
}
