/** The 256-byte image header, its acceptance test, and the signed metadata. */
module BootImage {
  import opened Words
  import Crc32
  import Sha256

  const IMAGE_MAGIC: nat := 0x544F4F42
  const FORMAT_VERSION: nat := 1
  const HEADER_SIZE: nat := 256
  const SIGNATURE_SIZE: nat := 64
  const SIGNED_DATA_SIZE: nat := 80
  const DIGEST_SIZE: nat := 32
  const SLOT_SIZE: nat := 1024 * 1024
  const PAYLOAD_OFFSET: nat := 4096
  const IMAGE_MAX_SIZE: nat := SLOT_SIZE - PAYLOAD_OFFSET
  const APP_BASE: nat := 0x08100000
  const HARDWARE_ID: nat := 0x48373433
  const ALGORITHM_NONE: nat := 0
  const ALGORITHM_ECDSA: nat := 1

  type Header = h: seq<byte> | |h| == HEADER_SIZE witness Fill(0, HEADER_SIZE)
  type Digest = d: seq<byte> | |d| == DIGEST_SIZE witness Fill(0, DIGEST_SIZE)

  // ----- the fields, at the offsets of the packed little-endian structure -----

  function Magic(h: Header): nat { U32(h[0..4]) }
  function Version(h: Header): nat { U16(h[4..6]) }
  function HeaderSize(h: Header): nat { U16(h[6..8]) }
  function Flags(h: Header): nat { U32(h[8..12]) }
  function HardwareId(h: Header): nat { U32(h[12..16]) }
  function FirmwareVersion(h: Header): nat { U32(h[16..20]) }
  function PayloadOffset(h: Header): nat { U32(h[20..24]) }
  function ImageSize(h: Header): nat { U32(h[24..28]) }
  function LoadAddress(h: Header): nat { U32(h[28..32]) }
  function ImageCrc(h: Header): nat { U32(h[32..36]) }
  function ImageSha256(h: Header): Digest { h[36..68] }
  function Algorithm(h: Header): nat { U16(h[68..70]) }
  function SignatureSize(h: Header): nat { U16(h[70..72]) }
  function Signature(h: Header): seq<byte> { h[72..136] }
  function Reserved(h: Header): seq<byte> { h[136..252] }
  function HeaderCrc(h: Header): nat { U32(h[252..256]) }

  /** The CRC the last field must hold: that of the header with the field itself zero. */
  function CrcOfHeader(h: Header): nat {
    Crc32.Crc(h[..252] + Fill(0, 4))
  }

  predicate AllZero(bytes: seq<byte>) {
    forall i :: 0 <= i < |bytes| ==> bytes[i] == 0
  }

  predicate FieldsValid(h: Header) {
    && Magic(h) == IMAGE_MAGIC
    && Version(h) == FORMAT_VERSION
    && HeaderSize(h) == HEADER_SIZE
    && Flags(h) % 2 == 1
    && HardwareId(h) == HARDWARE_ID
    && PayloadOffset(h) == PAYLOAD_OFFSET
    && 8 <= ImageSize(h) <= IMAGE_MAX_SIZE
    && LoadAddress(h) == APP_BASE
    && AllZero(Reserved(h))
  }

  predicate AlgorithmValid(h: Header) {
    || (Algorithm(h) == ALGORITHM_NONE && SignatureSize(h) == 0)
    || (Algorithm(h) == ALGORITHM_ECDSA && SignatureSize(h) == SIGNATURE_SIZE)
  }

  /** What the acceptance test promises of a header. */
  predicate HeaderValid(h: Header) {
    FieldsValid(h) && AlgorithmValid(h) && CrcOfHeader(h) == HeaderCrc(h)
  }

  // ----- the constant-time comparisons -----

  function Or(a: bv32, b: bv32): bv32 {
    a | b
  }

  lemma OrZero(a: bv32, b: bv32)
    ensures Or(a, b) == 0 <==> a == 0 && b == 0
  {
  }

  lemma MixZero(a: bv32, b: bv32)
    ensures Crc32.Mix(a, b) == 0 <==> a == b
  {
    assert a ^ a == 0;
    if a ^ b == 0 {
      assert (a ^ b) ^ b == a;
    }
  }

  lemma WideZero(b: byte)
    ensures Crc32.Wide(b) == 0 <==> b == 0
  {
    assert Crc32.Wide(0) == 0 by {
      Crc32.WideZero();
    }
    hide Crc32.Wide;
    if Crc32.Wide(b) == Crc32.Wide(0) {
      Crc32.WideInjective(b, 0);
    }
  }

  method BytesAreZero(bytes: seq<byte>) returns (zero: bool)
    ensures zero <==> AllZero(bytes)
  {
    hide Or, Crc32.Wide;
    var combined: bv32 := 0;
    for i := 0 to |bytes|
      invariant combined == 0 <==> AllZero(bytes[..i])
    {
      OrZero(combined, Crc32.Wide(bytes[i]));
      WideZero(bytes[i]);
      assert bytes[..i + 1] == bytes[..i] + [bytes[i]];
      combined := Or(combined, Crc32.Wide(bytes[i]));
    }
    assert bytes[..|bytes|] == bytes;
    return combined == 0;
  }

  method DigestEqual(left: seq<byte>, right: seq<byte>) returns (equal: bool)
    requires |left| == |right|
    ensures equal <==> left == right
  {
    hide Or, Crc32.Mix, Crc32.Wide;
    var difference: bv32 := 0;
    for i := 0 to |left|
      invariant difference == 0 <==> left[..i] == right[..i]
    {
      var l, r := Crc32.Wide(left[i]), Crc32.Wide(right[i]);
      OrZero(difference, Crc32.Mix(l, r));
      MixZero(l, r);
      if l == r {
        Crc32.WideInjective(left[i], right[i]);
      }
      assert left[..i + 1] == left[..i] + [left[i]] && right[..i + 1] == right[..i] + [right[i]];
      difference := Or(difference, Crc32.Mix(l, r));
    }
    assert left[..|left|] == left && right[..|right|] == right;
    return difference == 0;
  }

  method HeaderValidate(h: Header) returns (valid: bool)
    ensures valid <==> HeaderValid(h)
  {
    hide Crc32.Crc;
    var reservedZero := BytesAreZero(Reserved(h));
    if Magic(h) != IMAGE_MAGIC || Version(h) != FORMAT_VERSION || HeaderSize(h) != HEADER_SIZE
       || Flags(h) % 2 == 0 || HardwareId(h) != HARDWARE_ID || PayloadOffset(h) != PAYLOAD_OFFSET
       || ImageSize(h) < 8 || ImageSize(h) > IMAGE_MAX_SIZE || LoadAddress(h) != APP_BASE || !reservedZero {
      return false;
    }
    if (Algorithm(h) == ALGORITHM_NONE && SignatureSize(h) != 0)
       || (Algorithm(h) == ALGORITHM_ECDSA && SignatureSize(h) != SIGNATURE_SIZE)
       || (Algorithm(h) != ALGORITHM_NONE && Algorithm(h) != ALGORITHM_ECDSA) {
      return false;
    }
    var expected := HeaderCrc(h);
    var crc := Crc32.Calculate(h[..252] + Fill(0, 4));
    return crc == expected;
  }

  // ----- torn writes -----

  /** A header of which only the first k bytes reached blank flash. */
  function Torn(h: Header, k: nat): Header
    requires k <= HEADER_SIZE
  {
    h[..k] + Fill(0xFF, HEADER_SIZE - k)
  }

  lemma BlankRejected(h: Header)
    requires h[0] == 0xFF
    ensures !HeaderValid(h)
  {
    assert Magic(h) % 0x100 == 0xFF;
  }

  /**
   * A torn write of an accepted header is accepted only when nothing is missing. The zero reserved bytes
   * settle every cut before the CRC field, the CRC field itself settles the others.
   */
  lemma TornHeader(h: Header, k: nat)
    requires HeaderValid(h) && k <= HEADER_SIZE
    ensures HeaderValid(Torn(h, k)) <==> Torn(h, k) == h
  {
    hide Crc32.Crc;
    var t := Torn(h, k);
    if k < 252 {
      assert Reserved(t)[115] == 0xFF && Reserved(h)[115] == 0;
    } else {
      assert t[..252] == h[..252];
      if HeaderCrc(t) == HeaderCrc(h) {
        U32Injective(t[252..256], h[252..256]);
        assert t == t[..252] + t[252..256] && h == h[..252] + h[252..256];
      }
    }
  }

  // ----- signed metadata -----

  const SIGNATURE_DOMAIN: seq<byte> := [0x48, 0x37, 0x34, 0x33, 0x4F, 0x54, 0x41, 0x31]

  function SignedData(h: Header, digest: Digest): (d: seq<byte>)
    ensures |d| == SIGNED_DATA_SIZE
  {
    SIGNATURE_DOMAIN + h[..36] + digest + h[68..72]
  }

  method Put(output: array<byte>, cursor: nat, bytes: seq<byte>) returns (next: nat)
    requires cursor + |bytes| <= output.Length
    modifies output
    ensures next == cursor + |bytes|
    ensures output[..next] == old(output[..cursor]) + bytes
  {
    for i := 0 to |bytes|
      invariant output[..cursor + i] == old(output[..cursor]) + bytes[..i]
    {
      output[cursor + i] := bytes[i];
    }
    next := cursor + |bytes|;
  }

  /** The signed metadata, stored field by field behind an advancing cursor. */
  method BuildSignedData(h: Header, digest: Digest, output: array<byte>)
    requires output.Length == SIGNED_DATA_SIZE
    modifies output
    ensures output[..] == SignedData(h, digest)
  {
    hide U16, U32, StoreU16, StoreU32;
    assert output[..0] == [];
    var cursor := Put(output, 0, SIGNATURE_DOMAIN);
    assert output[..cursor] == SIGNATURE_DOMAIN;
    cursor := PutIdentity(h, output, cursor);
    cursor := PutLayout(h, output, cursor);
    assert h[..36] == h[..20] + h[20..36];
    cursor := Put(output, cursor, digest);
    cursor := PutAlgorithm(h, output, cursor);
    assert output[..] == output[..cursor];
    assert SignedData(h, digest) == SIGNATURE_DOMAIN + h[..20] + h[20..36] + digest + h[68..72];
  }

  method PutIdentity(h: Header, output: array<byte>, at: nat) returns (cursor: nat)
    requires at + 20 <= output.Length
    modifies output
    ensures cursor == at + 20 && output[..cursor] == old(output[..at]) + h[..20]
  {
    hide U16, U32, StoreU16, StoreU32;
    ghost var before := output[..at];
    cursor := Put(output, at, StoreU32(Magic(h)));
    cursor := Put(output, cursor, StoreU16(Version(h)));
    cursor := Put(output, cursor, StoreU16(HeaderSize(h)));
    cursor := Put(output, cursor, StoreU32(Flags(h)));
    cursor := Put(output, cursor, StoreU32(HardwareId(h)));
    cursor := Put(output, cursor, StoreU32(FirmwareVersion(h)));
    IdentityBytes(h);
    assert h[..20] == h[0..4] + h[4..6] + h[6..8] + h[8..12] + h[12..16] + h[16..20];
  }

  method PutLayout(h: Header, output: array<byte>, at: nat) returns (cursor: nat)
    requires at + 16 <= output.Length
    modifies output
    ensures cursor == at + 16 && output[..cursor] == old(output[..at]) + h[20..36]
  {
    hide U16, U32, StoreU16, StoreU32;
    cursor := Put(output, at, StoreU32(PayloadOffset(h)));
    cursor := Put(output, cursor, StoreU32(ImageSize(h)));
    cursor := Put(output, cursor, StoreU32(LoadAddress(h)));
    cursor := Put(output, cursor, StoreU32(ImageCrc(h)));
    StoreU32Load(h[20..24]);
    StoreU32Load(h[24..28]);
    StoreU32Load(h[28..32]);
    StoreU32Load(h[32..36]);
    assert h[20..36] == h[20..24] + h[24..28] + h[28..32] + h[32..36];
  }

  method PutAlgorithm(h: Header, output: array<byte>, at: nat) returns (cursor: nat)
    requires at + 4 <= output.Length
    modifies output
    ensures cursor == at + 4 && output[..cursor] == old(output[..at]) + h[68..72]
  {
    hide U16, StoreU16;
    cursor := Put(output, at, StoreU16(Algorithm(h)));
    cursor := Put(output, cursor, StoreU16(SignatureSize(h)));
    StoreU16Load(h[68..70]);
    StoreU16Load(h[70..72]);
    assert h[68..72] == h[68..70] + h[70..72];
  }

  /** Storing a loaded field gives the header's own bytes. */
  lemma IdentityBytes(h: Header)
    ensures StoreU32(Magic(h)) == h[0..4] && StoreU16(Version(h)) == h[4..6] && StoreU16(HeaderSize(h)) == h[6..8]
    ensures StoreU32(Flags(h)) == h[8..12] && StoreU32(HardwareId(h)) == h[12..16]
    ensures StoreU32(FirmwareVersion(h)) == h[16..20]
  {
    hide U16, U32, StoreU16, StoreU32;
    StoreU32Load(h[0..4]);
    StoreU16Load(h[4..6]);
    StoreU16Load(h[6..8]);
    StoreU32Load(h[8..12]);
    StoreU32Load(h[12..16]);
    StoreU32Load(h[16..20]);
  }

  /**
   * A signature covers every field a boot depends on: headers with the same signed metadata agree on everything
   * up to the stored digest, on the algorithm and on the signature's size, and the images have the same digest.
   */
  lemma SignedDataBinds(h1: Header, d1: Digest, h2: Header, d2: Digest)
    requires SignedData(h1, d1) == SignedData(h2, d2)
    ensures h1[..36] == h2[..36] && h1[68..72] == h2[68..72] && d1 == d2
  {
    var s1, s2 := SignedData(h1, d1), SignedData(h2, d2);
    assert s1[8..44] == h1[..36] && s2[8..44] == h2[..36];
    assert s1[44..76] == d1 && s2[44..76] == d2;
    assert s1[76..] == h1[68..72] && s2[76..] == h2[68..72];
  }

  /** The trusted key's verification, and whether unsigned images may still be installed. */
  datatype Policy = Policy(allowUnsigned: bool, verify: (seq<byte>, seq<byte>) -> bool)

  predicate SignatureAccepted(policy: Policy, h: Header, digest: Digest) {
    if Algorithm(h) == ALGORITHM_NONE then policy.allowUnsigned && SignatureSize(h) == 0
    else
      && Algorithm(h) == ALGORITHM_ECDSA && SignatureSize(h) == SIGNATURE_SIZE
      && policy.verify(Sha256.Digest(SignedData(h, digest)), Signature(h))
  }

  method SignatureVerify(policy: Policy, h: Header, digest: Digest) returns (accepted: bool)
    ensures accepted <==> SignatureAccepted(policy, h, digest)
  {
    hide Sha256.Digest, SignedData, Sha256.Blocks, Sha256.BitLength, Sha256.InitialState;
    if Algorithm(h) == ALGORITHM_NONE {
      return policy.allowUnsigned && SignatureSize(h) == 0;
    }
    if Algorithm(h) != ALGORITHM_ECDSA || SignatureSize(h) != SIGNATURE_SIZE {
      return false;
    }
    var signedData := new byte[SIGNED_DATA_SIZE];
    BuildSignedData(h, digest, signedData);
    var signedDigest := Sha256.DigestChunks([signedData[..]]);
    Sha256.ConcatOne(signedData[..]);
    return policy.verify(signedDigest, Signature(h));
  }
}
