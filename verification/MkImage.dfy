/** The package builder: what it writes is what the engine accepts. */
module MkImage {
  import opened Basics
  import opened Words
  import opened BootImage
  import opened OtaSlot
  import Crc32
  import Sha256

  // ----- the builder's own constants -----

  const BUILT_MAGIC: nat := 0x544F4F42
  const BUILT_VERSION: nat := 1
  const BUILT_HEADER_SIZE: nat := 256
  const BUILT_FLAGS: nat := 1
  const BUILT_HARDWARE_ID: nat := 0x48373433
  const BUILT_APP_BASE: nat := 0x08100000
  const BUILT_PAYLOAD_OFFSET: nat := 4096
  const BUILT_SLOT_SIZE: nat := 1024 * 1024
  const BUILT_MAX_IMAGE_SIZE: nat := BUILT_SLOT_SIZE - BUILT_PAYLOAD_OFFSET
  const BUILT_UNSIGNED: nat := 0
  const BUILT_ECDSA_P256_RAW: nat := 1
  const BUILT_SIGNATURE_SIZE: nat := 64
  /** "H743OTA1" */
  const BUILT_DOMAIN: seq<byte> := [0x48, 0x37, 0x34, 0x33, 0x4F, 0x54, 0x41, 0x31]

  /** The private key's side: signs the metadata, as the 64 raw bytes r || s. */
  type Signer = seq<byte> -> seq<byte>

  /** The signer's public key is the one the policy trusts. */
  ghost predicate Trusted(policy: Policy, sign: Signer) {
    forall d :: |sign(d)| == SIGNATURE_SIZE && policy.verify(Sha256.Digest(d), sign(d))
  }

  predicate Within(x: nat, low: nat, high: nat) {
    low <= x <= high
  }

  predicate AppVectorValid(image: seq<byte>) {
    |image| >= 8 &&
    var stack, reset := U32(image[0..4]), U32(image[4..8]);
    && (Within(stack, 0x20000000, 0x20020000) || Within(stack, 0x24000000, 0x24080000)
        || Within(stack, 0x30000000, 0x30048000) || Within(stack, 0x38000000, 0x38010000))
    && stack % 8 == 0 && reset % 2 == 1
    && BUILT_APP_BASE <= reset - 1 < BUILT_APP_BASE + BUILT_SLOT_SIZE
  }

  function Prefix(version: nat, size: nat, crc: nat): (p: seq<byte>)
    requires version < TWO_TO_THE_32 && size < TWO_TO_THE_32 && crc < TWO_TO_THE_32
    ensures |p| == 36
  {
    StoreU32(BUILT_MAGIC) + StoreU16(BUILT_VERSION) + StoreU16(BUILT_HEADER_SIZE) + StoreU32(BUILT_FLAGS)
    + StoreU32(BUILT_HARDWARE_ID)
    + StoreU32(version) + StoreU32(BUILT_PAYLOAD_OFFSET) + StoreU32(size) + StoreU32(BUILT_APP_BASE) + StoreU32(crc)
  }

  function AlgorithmBytes(signed: bool): (b: seq<byte>)
    ensures |b| == 4
  {
    if signed then StoreU16(BUILT_ECDSA_P256_RAW) + StoreU16(BUILT_SIGNATURE_SIZE)
      else StoreU16(BUILT_UNSIGNED) + StoreU16(0)
  }

  function BuildSignedData(version: nat, size: nat, crc: nat, sha: Digest, signed: bool): seq<byte>
    requires version < TWO_TO_THE_32 && size < TWO_TO_THE_32 && crc < TWO_TO_THE_32
  {
    BUILT_DOMAIN + Prefix(version, size, crc) + sha + AlgorithmBytes(signed)
  }

  /** The signature field: zero for an unsigned package, and always of its full size. */
  function SignatureField(signer: Option<Signer>, data: seq<byte>): (s: seq<byte>)
    ensures |s| == SIGNATURE_SIZE
  {
    var raw := if signer.None? then [] else signer.value(data);
    if |raw| >= BUILT_SIGNATURE_SIZE then raw[..BUILT_SIGNATURE_SIZE] else raw + Fill(0, BUILT_SIGNATURE_SIZE - |raw|)
  }

  function Seal(body: seq<byte>): (h: Header)
    requires |body| == HEADER_SIZE - 4
  {
    body + StoreU32(Crc32.Crc(body + Fill(0, 4)))
  }

  function HeaderBody(version: nat, size: nat, crc: nat, sha: Digest, signed: bool,
                      signature: seq<byte>): (b: seq<byte>)
    requires version < TWO_TO_THE_32 && size < TWO_TO_THE_32 && crc < TWO_TO_THE_32
    requires |signature| == SIGNATURE_SIZE
    ensures |b| == HEADER_SIZE - 4
  {
    Prefix(version, size, crc) + sha + AlgorithmBytes(signed) + signature + Fill(0, BUILT_HEADER_SIZE - 136 - 4)
  }

  /** The header, or nothing when the image or the version is refused. */
  function BuildHeader(image: seq<byte>, version: int, signer: Option<Signer>): (header: Option<Header>)
    ensures header.Some? <==> 8 <= |image| <= IMAGE_MAX_SIZE && AppVectorValid(image) && 0 <= version < TWO_TO_THE_32
  {
    if !(8 <= |image| <= BUILT_MAX_IMAGE_SIZE) || !AppVectorValid(image) || !(0 <= version < TWO_TO_THE_32) then None
    else
      var crc, sha := Crc32.Crc(image), Sha256.Digest(image);
      var data := BuildSignedData(version, |image|, crc, sha, signer.Some?);
      Some(Seal(HeaderBody(version, |image|, crc, sha, signer.Some?, SignatureField(signer, data))))
  }

  function Package(header: seq<byte>, image: seq<byte>, padSlot: bool): seq<byte>
    requires |header| == HEADER_SIZE && |image| <= IMAGE_MAX_SIZE
  {
    var package := header + Fill(0xFF, BUILT_PAYLOAD_OFFSET - |header|) + image;
    if padSlot then package + Fill(0xFF, BUILT_SLOT_SIZE - |package|) else package
  }

  lemma PrefixFields(version: nat, size: nat, crc: nat, h: Header)
    requires version < TWO_TO_THE_32 && size < TWO_TO_THE_32 && crc < TWO_TO_THE_32
    requires h[..36] == Prefix(version, size, crc)
    ensures Magic(h) == IMAGE_MAGIC && Version(h) == FORMAT_VERSION && HeaderSize(h) == HEADER_SIZE
    ensures Flags(h) == 1 && HardwareId(h) == HARDWARE_ID && FirmwareVersion(h) == version
    ensures PayloadOffset(h) == PAYLOAD_OFFSET && ImageSize(h) == size && LoadAddress(h) == APP_BASE
    ensures ImageCrc(h) == crc
  {
    hide StoreU32, StoreU16, U32, U16;
    var p := h[..36];
    U32Store(IMAGE_MAGIC);
    U16Store(FORMAT_VERSION);
    U16Store(HEADER_SIZE);
    U32Store(1);
    U32Store(HARDWARE_ID);
    U32Store(version);
    U32Store(PAYLOAD_OFFSET);
    U32Store(size);
    U32Store(APP_BASE);
    U32Store(crc);
    assert h[0..4] == p[0..4] == StoreU32(IMAGE_MAGIC);
    assert h[4..6] == p[4..6] == StoreU16(FORMAT_VERSION);
    assert h[6..8] == p[6..8] == StoreU16(HEADER_SIZE);
    assert h[8..12] == p[8..12] == StoreU32(1);
    assert h[12..16] == p[12..16] == StoreU32(HARDWARE_ID);
    assert h[16..20] == p[16..20] == StoreU32(version);
    assert h[20..24] == p[20..24] == StoreU32(PAYLOAD_OFFSET);
    assert h[24..28] == p[24..28] == StoreU32(size);
    assert h[28..32] == p[28..32] == StoreU32(APP_BASE);
    assert h[32..36] == p[32..36] == StoreU32(crc);
  }

  lemma AlgorithmFields(signed: bool, h: Header)
    requires h[68..72] == AlgorithmBytes(signed)
    ensures Algorithm(h) == if signed then ALGORITHM_ECDSA else ALGORITHM_NONE
    ensures SignatureSize(h) == if signed then SIGNATURE_SIZE else 0
  {
    hide StoreU16, U16;
    U16Store(ALGORITHM_ECDSA);
    U16Store(ALGORITHM_NONE);
    U16Store(SIGNATURE_SIZE);
    U16Store(0);
    var a := AlgorithmBytes(signed);
    assert h[68..70] == a[0..2] && h[70..72] == a[2..4];
  }

  lemma SealedCrc(body: seq<byte>)
    requires |body| == HEADER_SIZE - 4
    ensures CrcOfHeader(Seal(body)) == HeaderCrc(Seal(body))
  {
    hide StoreU32, U32, Crc32.Crc;
    var h := Seal(body);
    assert h[..252] == body;
    assert h[252..256] == StoreU32(Crc32.Crc(body + Fill(0, 4)));
    U32Store(Crc32.Crc(body + Fill(0, 4)));
  }

  /** The parts of a built header, where the engine looks for them. */
  lemma BodyParts(version: nat, size: nat, crc: nat, sha: Digest, signed: bool, signature: seq<byte>, h: Header)
    requires version < TWO_TO_THE_32 && size < TWO_TO_THE_32 && crc < TWO_TO_THE_32
    requires |signature| == SIGNATURE_SIZE
    requires h[..252] == HeaderBody(version, size, crc, sha, signed, signature)
    ensures h[..36] == Prefix(version, size, crc) && ImageSha256(h) == sha
    ensures h[68..72] == AlgorithmBytes(signed) && Signature(h) == signature && AllZero(Reserved(h))
  {
    hide Prefix, AlgorithmBytes;
    var b := HeaderBody(version, size, crc, sha, signed, signature);
    assert h[..36] == b[..36] && h[36..68] == b[36..68] && h[68..72] == b[68..72];
    assert h[72..136] == b[72..136] && h[136..252] == b[136..252];
  }

  lemma PrefixFieldsValid(version: nat, size: nat, crc: nat, h: Header)
    requires version < TWO_TO_THE_32 && 8 <= size <= IMAGE_MAX_SIZE && crc < TWO_TO_THE_32
    requires h[..36] == Prefix(version, size, crc) && AllZero(Reserved(h))
    ensures FieldsValid(h)
  {
    PrefixFields(version, size, crc, h);
    hide Prefix, Magic, Version, HeaderSize, Flags, HardwareId, PayloadOffset, ImageSize, LoadAddress, Reserved;
  }

  /** A built header is accepted, and says of the image what is true of it. */
  lemma BuiltHeader(image: seq<byte>, version: int, signer: Option<Signer>, h: Header)
    requires BuildHeader(image, version, signer) == Some(h)
    ensures HeaderValid(h) && ImageSize(h) == |image| && FirmwareVersion(h) == version
    ensures ImageCrc(h) == Crc32.Crc(image) && ImageSha256(h) == Sha256.Digest(image)
    ensures Algorithm(h) == ALGORITHM_NONE <==> signer.None?
  {
    var crc, sha := Crc32.Crc(image), Sha256.Digest(image);
    var data := BuildSignedData(version, |image|, crc, sha, signer.Some?);
    var signature := SignatureField(signer, data);
    hide Crc32.Crc, Sha256.Digest, AppVectorValid, BuildSignedData, SignatureField;
    var body := HeaderBody(version, |image|, crc, sha, signer.Some?, signature);
    assert h == Seal(body) && h[..252] == body;
    SealedCrc(body);
    hide BuildHeader, HeaderBody, Seal;
    BodyParts(version, |image|, crc, sha, signer.Some?, signature, h);
    PrefixFields(version, |image|, crc, h);
    PrefixFieldsValid(version, |image|, crc, h);
    AlgorithmFields(signer.Some?, h);
    hide FieldsValid, Prefix, AlgorithmBytes, CrcOfHeader, HeaderCrc;
  }

  /** Where the fields of the built header lie, and in which byte order. */
  lemma HeaderLayout(image: seq<byte>, version: int, signer: Option<Signer>, h: Header)
    requires BuildHeader(image, version, signer) == Some(h)
    ensures Field(h, 0, 4, 0x544F4F42) && Field(h, 4, 2, 1) && Field(h, 6, 2, 256) && Field(h, 8, 4, 1)
    ensures Field(h, 12, 4, 0x48373433) && Field(h, 16, 4, version) && Field(h, 20, 4, 4096)
    ensures Field(h, 24, 4, |image|) && Field(h, 28, 4, 0x08100000) && Field(h, 32, 4, Crc32.Crc(image))
    ensures h[36..68] == Sha256.Digest(image)
    ensures Field(h, 68, 2, if signer.None? then 0 else 1) && Field(h, 70, 2, if signer.None? then 0 else 64)
    ensures Field(h, 252, 4, Crc32.Crc(h[..252] + Fill(0, 4)))
  {
    hide Crc32.Crc, Sha256.Digest, StoreU32, StoreU16, Field, BuildHeader, Prefix, AlgorithmBytes;
    BuiltParts(image, version, signer, h);
    Field32(h, 252, Crc32.Crc(h[..252] + Fill(0, 4)));
    PrefixLayout(version, |image|, Crc32.Crc(image), h);
    AlgorithmLayout(signer.Some?, h);
  }

  lemma SealParts(body: seq<byte>)
    requires |body| == HEADER_SIZE - 4
    ensures Seal(body)[..252] == body && Seal(body)[252..256] == StoreU32(Crc32.Crc(body + Fill(0, 4)))
  {
    hide Crc32.Crc, StoreU32;
  }

  lemma BuiltParts(image: seq<byte>, version: int, signer: Option<Signer>, h: Header)
    requires BuildHeader(image, version, signer) == Some(h)
    ensures 0 <= version < TWO_TO_THE_32 && |image| < TWO_TO_THE_32
    ensures h[..36] == Prefix(version, |image|, Crc32.Crc(image)) && h[36..68] == Sha256.Digest(image)
    ensures h[68..72] == AlgorithmBytes(signer.Some?)
    ensures h[252..256] == StoreU32(Crc32.Crc(h[..252] + Fill(0, 4)))
  {
    var crc, sha := Crc32.Crc(image), Sha256.Digest(image);
    var data := BuildSignedData(version, |image|, crc, sha, signer.Some?);
    var signature := SignatureField(signer, data);
    hide Crc32.Crc, Sha256.Digest, AppVectorValid, BuildSignedData, SignatureField, StoreU32, StoreU16;
    hide Prefix, AlgorithmBytes, Seal, HeaderBody;
    var body := HeaderBody(version, |image|, crc, sha, signer.Some?, signature);
    assert h == Seal(body);
    hide BuildHeader;
    SealParts(body);
    BodyParts(version, |image|, crc, sha, signer.Some?, signature, h);
  }

  lemma PrefixLayout(version: nat, size: nat, crc: nat, h: Header)
    requires version < TWO_TO_THE_32 && size < TWO_TO_THE_32 && crc < TWO_TO_THE_32
    requires h[..36] == Prefix(version, size, crc)
    ensures Field(h, 0, 4, 0x544F4F42) && Field(h, 4, 2, 1) && Field(h, 6, 2, 256) && Field(h, 8, 4, 1)
    ensures Field(h, 12, 4, 0x48373433) && Field(h, 16, 4, version) && Field(h, 20, 4, 4096)
    ensures Field(h, 24, 4, size) && Field(h, 28, 4, 0x08100000) && Field(h, 32, 4, crc)
  {
    hide StoreU32, StoreU16, Field;
    var p := h[..36];
    assert p[0..4] == StoreU32(BUILT_MAGIC) && p[4..6] == StoreU16(BUILT_VERSION);
    assert p[6..8] == StoreU16(BUILT_HEADER_SIZE) && p[8..12] == StoreU32(BUILT_FLAGS);
    assert p[12..16] == StoreU32(BUILT_HARDWARE_ID) && p[16..20] == StoreU32(version);
    assert p[20..24] == StoreU32(BUILT_PAYLOAD_OFFSET) && p[24..28] == StoreU32(size);
    assert p[28..32] == StoreU32(BUILT_APP_BASE) && p[32..36] == StoreU32(crc);
    hide Prefix;
    assert forall i, j :: 0 <= i <= j <= 36 ==> p[i..j] == h[i..j];
    Field32(h, 0, BUILT_MAGIC);
    Field16(h, 4, BUILT_VERSION);
    Field16(h, 6, BUILT_HEADER_SIZE);
    Field32(h, 8, BUILT_FLAGS);
    Field32(h, 12, BUILT_HARDWARE_ID);
    Field32(h, 16, version);
    Field32(h, 20, BUILT_PAYLOAD_OFFSET);
    Field32(h, 24, size);
    Field32(h, 28, BUILT_APP_BASE);
    Field32(h, 32, crc);
  }

  lemma AlgorithmLayout(signed: bool, h: Header)
    requires h[68..72] == AlgorithmBytes(signed)
    ensures Field(h, 68, 2, if signed then 1 else 0) && Field(h, 70, 2, if signed then 64 else 0)
  {
    hide StoreU16, Field;
    var a := h[68..72];
    assert a[0..2] == h[68..70] && a[2..4] == h[70..72];
    Field16(h, 68, if signed then BUILT_ECDSA_P256_RAW else BUILT_UNSIGNED);
    Field16(h, 70, if signed then BUILT_SIGNATURE_SIZE else 0);
  }

  /** The device rebuilds exactly the metadata the host signed. */
  lemma SignedDataAgrees(image: seq<byte>, version: int, signer: Option<Signer>, h: Header)
    requires BuildHeader(image, version, signer) == Some(h)
    ensures var data := BuildSignedData(version, |image|, Crc32.Crc(image), Sha256.Digest(image), signer.Some?);
            SignedData(h, Sha256.Digest(image)) == data && Signature(h) == SignatureField(signer, data)
  {
    var crc, sha := Crc32.Crc(image), Sha256.Digest(image);
    var data := BuildSignedData(version, |image|, crc, sha, signer.Some?);
    hide Crc32.Crc, Sha256.Digest, AppVectorValid, Prefix, AlgorithmBytes, SignatureField;
    var body := HeaderBody(version, |image|, crc, sha, signer.Some?, SignatureField(signer, data));
    assert h[..252] == body;
    BodyParts(version, |image|, crc, sha, signer.Some?, SignatureField(signer, data), h);
  }

  /** A package signed with the trusted key passes the engine's every check. */
  lemma BuiltPackageAccepted(policy: Policy, image: seq<byte>, version: int, sign: Signer, padSlot: bool, h: Header)
    requires BuildHeader(image, version, Some(sign)) == Some(h) && Trusted(policy, sign)
    ensures var package := Package(h, image, padSlot);
            && HEADER_SIZE <= |package| <= SLOT_SIZE
            && package[..HEADER_SIZE] == h
            && PAYLOAD_OFFSET + ImageSize(h) <= |package|
            && package[PAYLOAD_OFFSET..PAYLOAD_OFFSET + ImageSize(h)] == image
            && Verdict(policy, package, Crc32.Crc(package)) == Ok
  {
    hide *;
    WordsFit(image);
    BuiltHeader(image, version, Some(sign), h);
    SignedDataAgrees(image, version, Some(sign), h);
    HeaderBounds(h);
    PackageParts(h, image, padSlot);
    TrustedSignature(policy, sign, h, image,
      BuildSignedData(version, |image|, Crc32.Crc(image), Sha256.Digest(image), true));
    VerdictOfParts(policy, Package(h, image, padSlot), h, image);
  }

  lemma WordsFit(image: seq<byte>)
    ensures Crc32.Crc(image) < TWO_TO_THE_32 && IMAGE_MAX_SIZE < TWO_TO_THE_32
  {
    hide Crc32.Crc;
  }

  lemma TrustedSignature(policy: Policy, sign: Signer, h: Header, image: seq<byte>, data: seq<byte>)
    requires Trusted(policy, sign) && HeaderValid(h) && Algorithm(h) != ALGORITHM_NONE
    requires SignedData(h, Sha256.Digest(image)) == data && Signature(h) == SignatureField(Some(sign), data)
    ensures SignatureAccepted(policy, h, Sha256.Digest(image))
  {
    HeaderAlgorithm(h);
    hide HeaderValid, Sha256.Digest, SignedData, Algorithm, SignatureSize;
    assert policy.verify(Sha256.Digest(data), sign(data)) && |sign(data)| == SIGNATURE_SIZE;
    assert sign(data)[..SIGNATURE_SIZE] == sign(data);
  }

  lemma HeaderAlgorithm(h: Header)
    requires HeaderValid(h)
    ensures if Algorithm(h) == ALGORITHM_NONE then SignatureSize(h) == 0
            else Algorithm(h) == ALGORITHM_ECDSA && SignatureSize(h) == SIGNATURE_SIZE
  {
    hide FieldsValid, CrcOfHeader;
  }

  /** An unsigned package passes exactly when the policy still allows unsigned images. */
  lemma UnsignedPackage(policy: Policy, image: seq<byte>, version: int, padSlot: bool, h: Header)
    requires BuildHeader(image, version, None) == Some(h)
    ensures var package := Package(h, image, padSlot);
            |package| >= HEADER_SIZE
            && Verdict(policy, package, Crc32.Crc(package)) == if policy.allowUnsigned then Ok else ErrSignature
  {
    BuiltHeader(image, version, None, h);
    hide BuildHeader, Crc32.Crc, Sha256.Digest, HeaderValid;
    PackageParts(h, image, padSlot);
    HeaderAlgorithm(h);
    assert SignatureAccepted(policy, h, Sha256.Digest(image)) <==> policy.allowUnsigned;
    hide SignatureAccepted, Package, Verdict;
    VerdictOfParts(policy, Package(h, image, padSlot), h, image);
  }

  lemma VerdictOfParts(policy: Policy, package: seq<byte>, h: Header, image: seq<byte>)
    requires |package| >= HEADER_SIZE && package[..HEADER_SIZE] == h && HeaderValid(h)
    requires ImageSize(h) == |image| && PAYLOAD_OFFSET + |image| <= |package|
    requires package[PAYLOAD_OFFSET..PAYLOAD_OFFSET + |image|] == image
    requires ImageCrc(h) == Crc32.Crc(image) && ImageSha256(h) == Sha256.Digest(image)
    ensures Verdict(policy, package, Crc32.Crc(package))
         == if SignatureAccepted(policy, h, Sha256.Digest(image)) then Ok else ErrSignature
  {
    hide HeaderValid, Crc32.Crc, Sha256.Digest, SignatureAccepted, ImageSize, ImageCrc, ImageSha256;
  }

  lemma PackageParts(h: Header, image: seq<byte>, padSlot: bool)
    requires |image| <= IMAGE_MAX_SIZE
    ensures var package := Package(h, image, padSlot);
            && HEADER_SIZE <= |package| && PAYLOAD_OFFSET + |image| <= |package| <= SLOT_SIZE
            && package[..HEADER_SIZE] == h
            && package[PAYLOAD_OFFSET..PAYLOAD_OFFSET + |image|] == image
  {
  }
}
