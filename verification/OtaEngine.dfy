/** The OTA engine: receive into the download slot, validate, commit to the upgrade slot with the header last. */
module OtaEngine {
  import opened Words
  import opened BootImage
  import opened Flash
  import opened OtaSlot
  import Crc32
  import Sha256

  const COPY_BUFFER_SIZE: nat := 1024

  class Engine {
    const download: Partition
    const upgrade: Partition
    const policy: Policy
    const header: array<byte>
    const copyBuffer: array<byte>
    var locked: bool
    var state: State
    var lastError: Status
    var packageSize: nat
    var receivedSize: nat
    var firmwareVersion: nat
    var expectedCrc: nat
    var transferCrc: bv32
    /** The package bytes accepted since the last begin. */
    ghost var stream: seq<byte>
    /** How far the download slot had been recorded when the transfer began. */
    ghost var openedAt: nat
    /** What power-on found in the download slot. */
    ghost const found: seq<byte>

    /** Power-on: the service has not been initialised. */
    constructor (download: Partition, upgrade: Partition, policy: Policy)
      requires download != upgrade && download.data != upgrade.data
      requires download.data.Length >= SLOT_SIZE && upgrade.data.Length >= SLOT_SIZE
      requires BootSafe(policy, upgrade.data[..])
      requires forall t :: t in upgrade.points ==> BootSafe(policy, t)
      requires Unspoilt(policy, download.data[..], download.points, download.data[..])
      ensures Valid() && fresh(header) && fresh(copyBuffer) && found == download.data[..]
      ensures this.download == download && this.upgrade == upgrade && this.policy == policy
      ensures !locked && state == Uninitialized
    {
      this.download := download;
      this.upgrade := upgrade;
      this.policy := policy;
      header := new byte[HEADER_SIZE](_ => 0);
      copyBuffer := new byte[COPY_BUFFER_SIZE](_ => 0);
      locked := false;
      state := Uninitialized;
      lastError := Ok;
      packageSize, receivedSize, firmwareVersion, expectedCrc, transferCrc := 0, 0, 0, 0, 0;
      stream := [];
      openedAt := 0;
      found := download.data[..];
    }

    ghost predicate Wired()
      reads this
    {
      && header.Length == HEADER_SIZE && copyBuffer.Length == COPY_BUFFER_SIZE
      && download.data.Length >= SLOT_SIZE && upgrade.data.Length >= SLOT_SIZE
      && download != upgrade && download.data != upgrade.data && header != copyBuffer
      && header != download.data && header != upgrade.data
      && copyBuffer != download.data && copyBuffer != upgrade.data
    }

    /**
     * The received part of the package: header bytes in memory, the rest in the download slot, once each. Nothing the
     * slot went through since the transfer began has a header.
     */
    ghost predicate Staged()
      reads this, header, download, download.data
      requires Wired()
    {
      && |stream| == receivedSize <= packageSize
      && HEADER_SIZE <= packageSize <= SLOT_SIZE
      && transferCrc == Crc32.Register(Crc32.ALL_ONES, stream)
      && Mirrors(header[..], stream)
      && StagesBody(download.data[..], stream, packageSize)
      && BlankSince(download.points, openedAt)
    }

    /** Both slots hold the package. */
    ghost predicate Committed()
      reads this, header, download, download.data, upgrade, upgrade.data
      requires Wired()
    {
      && |stream| == packageSize
      && Delivered(policy, stream, expectedCrc, download.data[..])
      && Delivered(policy, stream, expectedCrc, upgrade.data[..])
      && header[..] == stream[..HEADER_SIZE]
      && firmwareVersion == FirmwareVersion(header[..])
    }

    ghost predicate Safe()
      reads this, upgrade, upgrade.data
    {
      && BootSafe(policy, upgrade.data[..])
      && forall t :: t in upgrade.points ==> BootSafe(policy, t)
    }

    ghost predicate Tidy()
      reads this, download, download.data
    {
      Unspoilt(policy, found, download.points, download.data[..])
    }

    /** What holds between any two calls. */
    ghost predicate Valid()
      reads this, header, copyBuffer, download, download.data, upgrade, upgrade.data
    {
      && Wired() && Safe() && Tidy()
      && receivedSize <= packageSize <= SLOT_SIZE && firmwareVersion < TWO_TO_THE_32
      && (!locked <==> state == Uninitialized)
      && state != Validating && state != Committing
      && (state == Receiving ==> Staged())
      && (state == Ready ==> Committed())
    }

    method PayloadValidate(partition: Partition, h: Header) returns (result: Status)
      requires copyBuffer.Length == COPY_BUFFER_SIZE && copyBuffer != partition.data
      requires partition.data.Length >= SLOT_SIZE && HeaderValid(h)
      modifies copyBuffer
      ensures result == PayloadStatus(policy, Payload(partition.data[..], h), h)
           || (result == ErrFlash && !partition.reliable)
    {
      hide HeaderValid, Sha256.Digest, Crc32.Crc, SignatureAccepted;
      var ok, crc, digest := HashPayload(partition, h);
      if !ok {
        return ErrFlash;
      }
      if crc != ImageCrc(h) {
        return ErrImageCrc;
      }
      var equal := DigestEqual(digest, ImageSha256(h));
      if !equal {
        return ErrImageSha256;
      }
      var accepted := SignatureVerify(policy, h, digest);
      if !accepted {
        return ErrSignature;
      }
      return Ok;
    }

    /** Both hashes of the stored payload, computed through the copy buffer. */
    method HashPayload(partition: Partition, h: Header) returns (ok: bool, crc: nat, digest: seq<byte>)
      requires copyBuffer.Length == COPY_BUFFER_SIZE && copyBuffer != partition.data
      requires partition.data.Length >= SLOT_SIZE && HeaderValid(h)
      modifies copyBuffer
      ensures partition.reliable ==> ok
      ensures ok ==> crc == Crc32.Crc(Payload(partition.data[..], h))
      ensures ok ==> digest == Sha256.Digest(Payload(partition.data[..], h))
    {
      hide HeaderValid, Sha256.Digest, Crc32.Crc, Payload, ImageSize, PayloadOffset;
      StoredPayload(partition.data[..], h);
      ok, crc, digest := HashArea(partition, PayloadOffset(h), ImageSize(h));
    }

    method HashArea(partition: Partition, offset: nat, size: nat) returns (ok: bool, crc: nat, digest: seq<byte>)
      requires copyBuffer.Length == COPY_BUFFER_SIZE && copyBuffer != partition.data
      requires offset + size <= partition.data.Length
      modifies copyBuffer
      ensures partition.reliable ==> ok
      ensures ok ==> crc == Crc32.Crc(partition.data[offset..offset + size])
      ensures ok ==> digest == Sha256.Digest(partition.data[offset..offset + size])
    {
      hide Sha256.Digest, Sha256.Context.Holds, Crc32.Finished;
      crc, digest := 0, [];
      var crcContext := new Crc32.Context();
      var sha := new Sha256.Context();
      RegisterOfNothing();
      hide Crc32.Register;
      ghost var area := partition.data[offset..offset + size];
      ok := HashStored(partition, offset, size, crcContext, sha);
      if ok {
        crc := crcContext.Finish();
        digest := sha.Finish(area);
      }
    }

    /** Hashes an area of a partition through the copy buffer. */
    method HashStored(partition: Partition, offset: nat, size: nat, crc: Crc32.Context, sha: Sha256.Context)
      returns (ok: bool)
      requires copyBuffer.Length == COPY_BUFFER_SIZE && copyBuffer != partition.data
      requires offset + size <= partition.data.Length
      requires sha.Holds([]) && crc.value == Crc32.Register(Crc32.ALL_ONES, [])
      requires sha.buffer != copyBuffer && sha.buffer != partition.data
      requires {sha.state as object} !! {copyBuffer as object, partition.data}
      modifies copyBuffer, crc, sha, sha.state, sha.buffer
      ensures partition.reliable ==> ok
      ensures ok ==> crc.value == Crc32.Register(Crc32.ALL_ONES, partition.data[offset..offset + size])
      ensures ok ==> sha.Holds(partition.data[offset..offset + size])
    {
      hide Crc32.Register, Sha256.Context.Holds;
      var position := 0;
      assert partition.data[offset..offset + 0] == [];
      while position < size
        invariant position <= size
        invariant partition.data[..] == old(partition.data[..])
        invariant crc.value == Crc32.Register(Crc32.ALL_ONES, partition.data[offset..offset + position])
        invariant sha.Holds(partition.data[offset..offset + position])
      {
        var remaining := size - position;
        var chunk := if remaining < COPY_BUFFER_SIZE then remaining else COPY_BUFFER_SIZE;
        ok := partition.Read(offset + position, copyBuffer, chunk);
        if !ok {
          return;
        }
        ghost var hashed := partition.data[offset..offset + position];
        HashChunk(crc, sha, hashed, copyBuffer[..chunk]);
        assert partition.data[offset..offset + (position + chunk)]
               == hashed + partition.data[offset + position..offset + position + chunk];
        position := position + chunk;
      }
      ok := true;
    }

    method HashChunk(crc: Crc32.Context, sha: Sha256.Context, ghost hashed: seq<byte>, bytes: seq<byte>)
      requires sha.Holds(hashed)
      requires crc.value == Crc32.Register(Crc32.ALL_ONES, hashed)
      modifies crc, sha, sha.state, sha.buffer
      ensures sha.Holds(hashed + bytes)
      ensures crc.value == Crc32.Register(Crc32.ALL_ONES, hashed + bytes)
    {
      hide Crc32.Register, Sha256.BitLength, Sha256.Blocks, Sha256.InitialState;
      crc.Update(bytes);
      Crc32.RegisterComposes(Crc32.ALL_ONES, hashed, bytes);
      sha.Update(hashed, bytes);
    }

    method SlotValidate(partition: Partition, expected: Header) returns (result: Status)
      requires copyBuffer.Length == COPY_BUFFER_SIZE && copyBuffer != partition.data
      requires partition.data.Length >= SLOT_SIZE
      modifies copyBuffer
      ensures result == Ok ==> Installable(policy, partition.data[..], expected)
      ensures Installable(policy, partition.data[..], expected) ==>
                result == Ok || (result == ErrFlash && !partition.reliable)
    {
      hide HeaderValid, PayloadStatus;
      var stored := new byte[HEADER_SIZE];
      var ok := partition.Read(0, stored, HEADER_SIZE);
      if !ok {
        return ErrFlash;
      }
      assert stored[..] == stored[..HEADER_SIZE];
      var valid := HeaderValidate(stored[..]);
      if !valid || stored[..] != expected {
        return ErrHeader;
      }
      result := PayloadValidate(partition, stored[..]);
    }

    /** Copies the payload behind a blank header. */
    method CopyPayload(size: nat) returns (result: Status)
      requires Wired() && PAYLOAD_OFFSET + size <= SLOT_SIZE && HeaderBlank(upgrade.data[..])
      requires forall i :: PAYLOAD_OFFSET <= i < PAYLOAD_OFFSET + size ==> upgrade.data[i] == ERASED
      modifies copyBuffer, upgrade`points, upgrade.data
      ensures result == Ok || (result == ErrFlash && !(download.reliable && upgrade.reliable))
      ensures result == Ok ==>
                upgrade.data[PAYLOAD_OFFSET..PAYLOAD_OFFSET + size]
                == download.data[PAYLOAD_OFFSET..PAYLOAD_OFFSET + size]
      ensures HeaderBlank(upgrade.data[..])
      ensures old(upgrade.points) <= upgrade.points
      ensures forall i :: |old(upgrade.points)| <= i < |upgrade.points| ==> HeaderBlank(upgrade.points[i])
    {
      hide HeaderBlank;
      var position := 0;
      while position < size
        invariant position <= size
        invariant HeaderBlank(upgrade.data[..])
        invariant upgrade.data[PAYLOAD_OFFSET..PAYLOAD_OFFSET + position]
                  == download.data[PAYLOAD_OFFSET..PAYLOAD_OFFSET + position]
        invariant forall i :: PAYLOAD_OFFSET + position <= i < PAYLOAD_OFFSET + size ==> upgrade.data[i] == ERASED
        invariant old(upgrade.points) <= upgrade.points
        invariant forall i :: |old(upgrade.points)| <= i < |upgrade.points| ==> HeaderBlank(upgrade.points[i])
      {
        var remaining := size - position;
        var chunk := if remaining < COPY_BUFFER_SIZE then remaining else COPY_BUFFER_SIZE;
        ghost var before := upgrade.data[..];
        result := CopyChunk(PAYLOAD_OFFSET + position, chunk);
        if result != Ok {
          return;
        }
        CopiedMore(before, upgrade.data[..], download.data[..], PAYLOAD_OFFSET, position, chunk, size);
        position := position + chunk;
      }
      return Ok;
    }

    method CopyChunk(at: nat, chunk: nat) returns (result: Status)
      requires Wired() && HeaderBlank(upgrade.data[..])
      requires chunk <= COPY_BUFFER_SIZE && PAYLOAD_OFFSET <= at && at + chunk <= SLOT_SIZE
      requires forall i :: at <= i < at + chunk ==> upgrade.data[i] == ERASED
      modifies copyBuffer, upgrade`points, upgrade.data
      ensures result == Ok || (result == ErrFlash && !(download.reliable && upgrade.reliable))
      ensures HeaderBlank(upgrade.data[..])
      ensures result == Ok ==> upgrade.data[..at] == old(upgrade.data[..at])
      ensures result == Ok ==> upgrade.data[at..at + chunk] == download.data[at..at + chunk]
      ensures result == Ok ==> upgrade.data[at + chunk..] == old(upgrade.data[at + chunk..])
      ensures old(upgrade.points) <= upgrade.points
      ensures forall i :: |old(upgrade.points)| <= i < |upgrade.points| ==> HeaderBlank(upgrade.points[i])
    {
      hide And, HeaderBlank, Programmed, ProgramRecorded;
      ghost var before, marks := upgrade.data[..], |upgrade.points|;
      var ok := download.Read(at, copyBuffer, chunk);
      if !ok {
        return ErrFlash;
      }
      var bytes := copyBuffer[..chunk];
      ghost var done: nat;
      ok, done := upgrade.Write(at, bytes);
      ProgramsAreBlank(upgrade.points, marks, before, upgrade.data[..], at, bytes, done);
      if !ok {
        return ErrFlash;
      }
      assert bytes[..done] == bytes;
      ProgramBlank(before, at, bytes);
      return Ok;
    }

    /** The erase that opens a commit: once anything has changed, the header is blank. */
    method EraseForCommit(size: nat) returns (result: Status)
      requires Wired() && 0 < size <= SLOT_SIZE && size % SECTOR_SIZE == 0
      modifies upgrade`points, upgrade.data
      ensures result == Ok || (result == ErrFlash && !upgrade.reliable)
      ensures result == Ok ==> HeaderBlank(upgrade.data[..])
      ensures result == Ok ==> forall i :: 0 <= i < size ==> upgrade.data[i] == ERASED
      ensures upgrade.data[..] == old(upgrade.data[..]) || HeaderBlank(upgrade.data[..])
      ensures old(upgrade.points) <= upgrade.points && (result == Ok ==> |old(upgrade.points)| < |upgrade.points|)
      ensures forall i :: |old(upgrade.points)| <= i < |upgrade.points| ==> HeaderBlank(upgrade.points[i])
    {
      ghost var before, marks := upgrade.data[..], |upgrade.points|;
      result := EraseExact(upgrade, 0, size);
      hide ErasePoint, ErasedPart, Cleared, HeaderBlank;
      forall i | marks <= i < |upgrade.points|
        ensures HeaderBlank(upgrade.points[i])
      {
        ErasePointBlank(upgrade.points[i], before, size);
      }
      ErasedPartBlank(upgrade.data[..], before, size);
      ClearedBlank(before, size);
    }

    /** The write that closes a commit: every prefix of the header is a commit point. */
    method WriteUpgradeHeader(h: Header) returns (result: Status)
      requires Wired() && HeaderBlank(upgrade.data[..]) && Verified(policy, upgrade.data[..], h)
      modifies upgrade`points, upgrade.data
      ensures result == Ok || (result == ErrFlash && !upgrade.reliable)
      ensures result == Ok ==> SlotHeader(upgrade.data[..]) == h
      ensures SamePayload(upgrade.data[..], old(upgrade.data[..]), h)
      ensures CommitPoint(policy, upgrade.data[..], h)
      ensures old(upgrade.points) <= upgrade.points
      ensures forall i :: |old(upgrade.points)| <= i < |upgrade.points| ==> CommitPoint(policy, upgrade.points[i], h)
    {
      hide HeaderValid, PayloadStatus, Programmed, And, CommitPoint, ProgramRecorded;
      ghost var before, marks := upgrade.data[..], |upgrade.points|;
      var ok, done := upgrade.Write(0, h);
      if done != 0 {
        RecordedArePoints(upgrade.points, marks, before, 0, h[..done]);
      }
      forall i | marks <= i < |upgrade.points|
        ensures CommitPoint(policy, upgrade.points[i], h)
      {
        assert ProgramPoint(upgrade.points[i], before, 0, h[..done]);
        ghost var k :| 0 < k <= done && upgrade.points[i] == Programmed(before, 0, h[..done][..k]);
        assert h[..done][..k] == h[..k];
        HeaderWritePoint(policy, before, h, k);
      }
      HeaderWritePoint(policy, before, h, done);
      ProgramNothing(before, 0);
      HeaderBounds(h);
      ProgramBlank(before, 0, h[..done]);
      PayloadBehindPrefix(before, upgrade.data[..], h, done);
      result := if ok then Ok else ErrFlash;
    }

    /**
     * Erase, copy, verify, and only then write the header. A power cut at any point of it leaves either the
     * slot as it was, or a slot whose header is rejected, or this header in front of the verified payload.
     */
    method CommitToUpgrade(h: Header) returns (result: Status)
      requires Wired() && HeaderValid(h)
      modifies copyBuffer, upgrade`points, upgrade.data
      ensures result == Ok ==> Installable(policy, upgrade.data[..], h)
      ensures result == Ok ==> Payload(upgrade.data[..], h) == Payload(download.data[..], h)
      ensures result == PayloadStatus(policy, Payload(download.data[..], h), h)
           || (result == ErrFlash && !(download.reliable && upgrade.reliable))
      ensures upgrade.data[..] == old(upgrade.data[..]) || CommitPoint(policy, upgrade.data[..], h)
      ensures old(upgrade.points) <= upgrade.points
      ensures forall i :: |old(upgrade.points)| <= i < |upgrade.points| ==> CommitPoint(policy, upgrade.points[i], h)
      ensures result == Ok ==> FirstBlank(upgrade.points, |old(upgrade.points)|)
    {
      hide HeaderValid, PayloadStatus, HeaderBlank, CommitPoint, Payload, ImageSize;
      ghost var marks := |upgrade.points|;
      result := CopyBehindBlankHeader(h);
      BlanksAreCommitPoints(policy, upgrade.points, marks, upgrade.data[..], h);
      if result != Ok {
        return;
      }
      result := PayloadValidate(upgrade, h);
      if result != Ok {
        return;
      }
      result := WriteUpgradeHeader(h);
      if result != Ok {
        return;
      }
      result := SlotValidate(upgrade, h);
    }

    method CopyBehindBlankHeader(h: Header) returns (result: Status)
      requires Wired() && HeaderValid(h)
      modifies copyBuffer, upgrade`points, upgrade.data
      ensures result == Ok || (result == ErrFlash && !(download.reliable && upgrade.reliable))
      ensures result == Ok ==>
                HeaderBlank(upgrade.data[..]) && Payload(upgrade.data[..], h) == Payload(download.data[..], h)
      ensures upgrade.data[..] == old(upgrade.data[..]) || HeaderBlank(upgrade.data[..])
      ensures old(upgrade.points) <= upgrade.points && (result == Ok ==> |old(upgrade.points)| < |upgrade.points|)
      ensures forall i :: |old(upgrade.points)| <= i < |upgrade.points| ==> HeaderBlank(upgrade.points[i])
    {
      hide HeaderValid, ImageSize, PayloadOffset, Payload;
      HeaderBounds(h);
      assert PAYLOAD_OFFSET + ImageSize(h) <= SLOT_SIZE;
      hide *;
      result := EraseAndCopy(PayloadOffset(h), ImageSize(h));
      if result == Ok {
        CopiedPayload(upgrade.data[..], download.data[..], h);
      }
    }

    method EraseAndCopy(offset: nat, size: nat) returns (result: Status)
      requires Wired() && offset == PAYLOAD_OFFSET && offset + size <= SLOT_SIZE
      modifies copyBuffer, upgrade`points, upgrade.data
      ensures result == Ok || (result == ErrFlash && !(download.reliable && upgrade.reliable))
      ensures result == Ok ==> upgrade.data[offset..offset + size] == download.data[offset..offset + size]
      ensures result == Ok ==> HeaderBlank(upgrade.data[..])
      ensures upgrade.data[..] == old(upgrade.data[..]) || HeaderBlank(upgrade.data[..])
      ensures old(upgrade.points) <= upgrade.points && (result == Ok ==> |old(upgrade.points)| < |upgrade.points|)
      ensures forall i :: |old(upgrade.points)| <= i < |upgrade.points| ==> HeaderBlank(upgrade.points[i])
    {
      hide HeaderBlank;
      result := EraseForCommit(RoundUpSector(offset + size));
      if result != Ok {
        return;
      }
      result := CopyPayload(size);
    }

    // ----- the calls a transport makes, each atomic under the engine's lock -----

    method SetError(error: Status)
      modifies this`state, this`lastError
      ensures state == Error && lastError == error
    {
      state := Error;
      lastError := error;
    }

    method ServiceInit() returns (result: Status)
      requires Valid()
      modifies this`locked, this`state, this`lastError
      ensures Valid()
      ensures old(locked) ==> result == Ok && unchanged(this)
      ensures result == Ok || (result == ErrNoMemory && unchanged(this))
      ensures !old(locked) && result == Ok ==> locked && state == Idle && lastError == Ok
    {
      if locked {
        return Ok;
      }
      var outOfMemory := *;
      if outOfMemory {
        return ErrNoMemory;
      }
      locked := true;
      state := Idle;
      lastError := Ok;
      return Ok;
    }

    method Begin(size: nat, crc: nat) returns (result: Status)
      requires Valid() && size < TWO_TO_THE_32 && crc < TWO_TO_THE_32
      modifies this, header, download`points, download.data
      ensures Valid()
      ensures result == ErrNoMemory ==> !old(locked) && unchanged(this)
      ensures result in {ErrNoMemory, ErrSize, ErrState} ==>
                unchanged(header) && unchanged(download) && unchanged(download.data)
      ensures result in {ErrSize, ErrState} && old(locked) ==> unchanged(this)
      ensures result == ErrSize <==> result != ErrNoMemory && (size < HEADER_SIZE || size > SLOT_SIZE)
      ensures result == ErrState <==> result !in {ErrNoMemory, ErrSize} && old(state) == Receiving
      ensures result == Ok ==> state == Receiving && packageSize == size && expectedCrc == crc && stream == []
      ensures result == Ok ==> openedAt == |old(download.points)|
      ensures result == ErrFlash ==> state == Error && lastError == ErrFlash && !download.reliable
      ensures result in {Ok, ErrNoMemory, ErrSize, ErrState, ErrFlash}
    {
      result := ServiceInit();
      if result != Ok {
        return;
      }
      if size < HEADER_SIZE || size > SLOT_SIZE {
        return ErrSize;
      }
      if state == Receiving || state == Validating || state == Committing {
        return ErrState;
      }
      result := StartReceiving(size, crc);
    }

    method StartReceiving(size: nat, crc: nat) returns (result: Status)
      requires Wired() && Safe() && Tidy() && locked && HEADER_SIZE <= size <= SLOT_SIZE
      modifies this, header, download`points, download.data
      ensures Valid() && locked
      ensures result == Ok ==> state == Receiving && packageSize == size && expectedCrc == crc && stream == []
      ensures result == Ok ==> openedAt == |old(download.points)|
      ensures result == ErrFlash ==> state == Error && lastError == ErrFlash && !download.reliable
      ensures result in {Ok, ErrFlash}
    {
      hide BootSafe, Delivered, Mirrors, StagesBody, Crc32.Register, Unspoilt, BlankSince, HeaderBlank;
      ghost var committed, staged := upgrade.data[..], download.data[..];
      ResetTransfer(size, crc);
      result := BlankDownload(size);
      assert download.points[..openedAt] == old(download.points);
      BlankStaysUnspoilt(policy, found, download.points, openedAt, staged, download.data[..]);
      assert upgrade.data[..] == committed;
      if result != Ok {
        SetError(ErrFlash);
      }
    }

    /** The state of a transfer that has received nothing. */
    method ResetTransfer(size: nat, crc: nat)
      requires Wired()
      modifies this, header
      ensures Mirrors(header[..], []) && state == Receiving && lastError == Ok && locked == old(locked)
      ensures packageSize == size && receivedSize == 0 && firmwareVersion == 0 && expectedCrc == crc
      ensures stream == [] && transferCrc == Crc32.Register(Crc32.ALL_ONES, []) && openedAt == |download.points|
    {
      ClearHeader();
      state := Receiving;
      lastError := Ok;
      packageSize, receivedSize, firmwareVersion := size, 0, 0;
      expectedCrc := crc;
      transferCrc := Crc32.ALL_ONES;
      stream := [];
      openedAt := |download.points|;
      RegisterOfNothing();
    }

    method ClearHeader()
      requires header.Length == HEADER_SIZE
      modifies header
      ensures Mirrors(header[..], [])
    {
      forall i | 0 <= i < HEADER_SIZE {
        header[i] := 0;
      }
    }

    method BlankDownload(size: nat) returns (result: Status)
      requires download.data.Length >= SLOT_SIZE && size <= SLOT_SIZE
      modifies download`points, download.data
      ensures result == Ok || (result == ErrFlash && !download.reliable)
      ensures result == Ok ==> StagesBody(download.data[..], [], size)
      ensures old(download.points) <= download.points && BlankSince(download.points, |old(download.points)|)
      ensures download.data[..] == old(download.data[..]) || HeaderBlank(download.data[..])
    {
      hide ErasePoint, HeaderBlank, ErasedPart;
      ghost var before := download.data[..];
      result := EraseExact(download, 0, RoundUpSector(size));
      ErasesAreBlank(download.points, |old(download.points)|, before, RoundUpSector(size));
      ErasedPartBlank(download.data[..], before, RoundUpSector(size));
    }

    lemma RegisterOfNothing()
      ensures Crc32.Register(Crc32.ALL_ONES, []) == Crc32.ALL_ONES
    {
    }

    method Write(offset: nat, data: seq<byte>) returns (result: Status)
      requires Valid()
      modifies this, header, download`points, download.data
      ensures Valid() && locked == old(locked)
      ensures result in {Ok, ErrArgument, ErrState, ErrFlash}
      ensures result == ErrArgument <==> data == []
      ensures result == ErrState <==> data != [] && (old(state) != Receiving || offset != old(receivedSize)
                                                     || |data| > old(packageSize) - offset)
      ensures result in {ErrArgument, ErrState} ==>
                unchanged(this) && unchanged(header) && unchanged(download) && unchanged(download.data)
      ensures result == Ok ==> stream == old(stream) + data && state == Receiving
      ensures result == Ok ==> packageSize == old(packageSize) && expectedCrc == old(expectedCrc)
      ensures openedAt == old(openedAt)
      ensures result == ErrFlash ==> state == Error && lastError == ErrFlash && !download.reliable
    {
      if data == [] {
        return ErrArgument;
      }
      if !locked {
        return ErrState;
      }
      if state != Receiving || offset != receivedSize || offset > packageSize || |data| > packageSize - offset {
        return ErrState;
      }
      result := Accept(data);
    }

    method Accept(data: seq<byte>) returns (result: Status)
      requires Valid() && state == Receiving && data != [] && receivedSize + |data| <= packageSize
      modifies this, header, download`points, download.data
      ensures Valid() && locked == old(locked)
      ensures result in {Ok, ErrFlash}
      ensures result == Ok ==> stream == old(stream) + data && state == Receiving
      ensures result == Ok ==> packageSize == old(packageSize) && expectedCrc == old(expectedCrc)
      ensures openedAt == old(openedAt) && BlankSince(download.points, openedAt)
      ensures result == ErrFlash ==> state == Error && lastError == ErrFlash && !download.reliable
    {
      hide BootSafe, Delivered, Crc32.Register, Mirrors, StagesBody, Unspoilt, HeaderBlank;
      ghost var committed, staged, marks := upgrade.data[..], download.data[..], |download.points|;
      var offset := receivedSize;
      transferCrc := UpdateCrc(transferCrc, data);
      Crc32.RegisterComposes(Crc32.ALL_ONES, stream, data);
      var consumed := MirrorHeader(offset, data);
      result := StageBody(offset, consumed, data);
      assert download.points[..marks] == old(download.points);
      BlankStaysUnspoilt(policy, found, download.points, marks, staged, download.data[..]);
      assert upgrade.data[..] == committed;
      if result == Ok {
        receivedSize := receivedSize + |data|;
        stream := stream + data;
      } else {
        SetError(result);
      }
    }

    /** The bytes below the header size go to the header in memory. */
    method MirrorHeader(offset: nat, data: seq<byte>) returns (consumed: nat)
      requires Wired() && offset == |stream| && Mirrors(header[..], stream)
      modifies header
      ensures Mirrors(header[..], stream + data)
      ensures consumed == if offset < HEADER_SIZE then Min(HEADER_SIZE - offset, |data|) else 0
    {
      consumed := 0;
      if offset < HEADER_SIZE {
        consumed := Min(HEADER_SIZE - offset, |data|);
        forall i | 0 <= i < consumed {
          header[offset + i] := data[i];
        }
      }
    }

    /** The others go to the download slot, onto blank flash. */
    method StageBody(offset: nat, consumed: nat, data: seq<byte>) returns (result: Status)
      requires Wired() && offset == |stream| && offset + |data| <= packageSize
               && HEADER_SIZE <= packageSize <= SLOT_SIZE
      requires consumed == if offset < HEADER_SIZE then Min(HEADER_SIZE - offset, |data|) else 0
      requires StagesBody(download.data[..], stream, packageSize)
      modifies download`points, download.data
      ensures result == Ok || (result == ErrFlash && !download.reliable)
      ensures result == Ok ==> StagesBody(download.data[..], stream + data, packageSize)
      ensures old(download.points) <= download.points && BlankSince(download.points, |old(download.points)|)
      ensures download.data[..] == old(download.data[..]) || HeaderBlank(download.data[..])
    {
      hide And, Programmed, ProgramRecorded;
      ghost var before, marks := download.data[..], |download.points|;
      if consumed < |data| {
        var ok, done := download.Write(offset + consumed, data[consumed..]);
        ProgramsAreBlank(download.points, marks, before, download.data[..], offset + consumed, data[consumed..], done);
        if !ok {
          return ErrFlash;
        }
        assert data[consumed..][..done] == data[consumed..];
        ProgramBlank(before, offset + consumed, data[consumed..]);
      }
      return Ok;
    }

    static method UpdateCrc(value: bv32, data: seq<byte>) returns (r: bv32)
      ensures r == Crc32.Register(value, data)
    {
      hide Crc32.Register;
      var context := new Crc32.Context();
      context.value := value;
      context.Update(data);
      return context.value;
    }

    /** A finish would go on to the commit: the package is complete and passes every check. */
    ghost predicate Commits()
      reads this
    {
      && state == Receiving && receivedSize == packageSize && |stream| >= HEADER_SIZE
      && Verdict(policy, stream, expectedCrc) == Ok
    }

    method Finish() returns (result: Status)
      requires Valid()
      modifies this, copyBuffer, download`points, download.data, upgrade`points, upgrade.data
      ensures Valid() && locked == old(locked)
      ensures result == ErrState <==> old(state) != Receiving || old(receivedSize) != old(packageSize)
      ensures result == ErrState ==> unchanged(this) && unchanged(download) && unchanged(download.data)
                                     && unchanged(upgrade) && unchanged(upgrade.data)
      ensures result != ErrState ==> (result == Verdict(policy, old(stream), old(expectedCrc))
                                      || (result == ErrFlash && !(download.reliable && upgrade.reliable)))
      ensures result == Ok <==> result != ErrState && state == Ready
      ensures stream == old(stream) && expectedCrc == old(expectedCrc) && packageSize == old(packageSize)
      ensures result !in {Ok, ErrState} ==> state == Error && lastError == result
      ensures old(upgrade.points) <= upgrade.points
      ensures !old(Commits()) ==> unchanged(upgrade) && unchanged(upgrade.data)
      ensures result == Ok ==> old(Commits()) && FirstBlank(upgrade.points, |old(upgrade.points)|)
      ensures result == Ok ==> Installable(policy, download.data[..], stream[..HEADER_SIZE])
      ensures result == Ok ==> Delivered(policy, stream, expectedCrc, download.data[..])
      ensures openedAt == old(openedAt)
      ensures result != ErrState ==> WholeSince(policy, stream, expectedCrc, download.points, openedAt)
    {
      hide Delivered, Installable, WholeSince, Verdict, Unspoilt, BootSafe;
      if !locked || state != Receiving || receivedSize != packageSize {
        return ErrState;
      }
      result := Complete();
    }

    method Complete() returns (result: Status)
      requires Valid() && state == Receiving && receivedSize == packageSize
      modifies this, copyBuffer, download`points, download.data, upgrade`points, upgrade.data
      ensures Valid() && locked
      ensures result == Verdict(policy, old(stream), old(expectedCrc))
           || (result == ErrFlash && !(download.reliable && upgrade.reliable))
      ensures state == if result == Ok then Ready else Error
      ensures stream == old(stream) && expectedCrc == old(expectedCrc) && packageSize == old(packageSize)
      ensures result != Ok ==> lastError == result
      ensures result != ErrState && old(upgrade.points) <= upgrade.points
      ensures Verdict(policy, old(stream), old(expectedCrc)) != Ok ==> unchanged(upgrade) && unchanged(upgrade.data)
      ensures result == Ok ==> FirstBlank(upgrade.points, |old(upgrade.points)|)
      ensures result == Ok ==> Installable(policy, download.data[..], stream[..HEADER_SIZE])
      ensures openedAt == old(openedAt) && WholeSince(policy, stream, expectedCrc, download.points, openedAt)
    {
      hide BootSafe, Delivered, Verdict, Mirrors, StagesBody, Crc32.Register, Installable, Unspoilt, BlankSince,
           WholeSince;
      hide U32, FirstBlank;
      state := Validating;
      VerdictIsNotState(policy, stream, expectedCrc);
      result := CheckAndInstall();
      if result == Ok {
        state := Ready;
        lastError := Ok;
        firmwareVersion := FirmwareVersion(header[..]);
      } else {
        SetError(result);
      }
    }

    /** The check of the package, and only then the commit. */
    method CheckAndInstall() returns (result: Status)
      requires Wired() && Safe() && Tidy() && Staged() && receivedSize == packageSize && state == Validating
      modifies `state, copyBuffer, download`points, download.data, upgrade`points, upgrade.data
      ensures Safe() && Tidy() && old(upgrade.points) <= upgrade.points
      ensures result == Verdict(policy, stream, expectedCrc)
           || (result == ErrFlash && !(download.reliable && upgrade.reliable))
      ensures Verdict(policy, stream, expectedCrc) != Ok ==> unchanged(upgrade) && unchanged(upgrade.data)
      ensures result == Ok ==> FirstBlank(upgrade.points, |old(upgrade.points)|)
      ensures result == Ok ==> Delivered(policy, stream, expectedCrc, download.data[..])
      ensures result == Ok ==> Delivered(policy, stream, expectedCrc, upgrade.data[..])
      ensures result == Ok ==> header[..] == stream[..HEADER_SIZE] && Installable(policy, download.data[..], header[..])
      ensures WholeSince(policy, stream, expectedCrc, download.points, openedAt)
    {
      hide BootSafe, Delivered, Verdict, PackageChecked, Mirrors, StagesBody, Crc32.Register, Installable, Unspoilt;
      hide BlankSince, WholeSince, Received, FirstBlank;
      ghost var committed := upgrade.data[..];
      result := CheckPackage();
      assert upgrade.data[..] == committed;
      if result == Ok {
        ReceivedIsWhole();
        ghost var whole := download.data[..];
        state := Committing;
        result := Install();
        assert download.data[..] == whole;
      }
    }

    /** The commit, and what it leaves in the upgrade slot. */
    method Install() returns (result: Status)
      requires Wired() && Safe() && |stream| == packageSize >= HEADER_SIZE
      requires Verdict(policy, stream, expectedCrc) == Ok
      requires PackageChecked(policy, stream, header[..], download.data[..])
      modifies copyBuffer, upgrade`points, upgrade.data
      ensures Safe() && old(upgrade.points) <= upgrade.points
      ensures result == Ok ==> FirstBlank(upgrade.points, |old(upgrade.points)|)
      ensures result == Ok || (result == ErrFlash && !(download.reliable && upgrade.reliable))
      ensures result == Ok ==> Delivered(policy, stream, expectedCrc, upgrade.data[..])
      ensures header[..] == stream[..HEADER_SIZE]
    {
      hide BootSafe, Delivered, Verdict, CommitPoint, HeaderValid, PayloadStatus, Payload, ImageSize, Installable;
      ghost var committed, marks := upgrade.data[..], |upgrade.points|;
      ghost var h := header[..];
      result := CommitToUpgrade(header[..]);
      assert header[..] == h;
      CommitKeepsSafe(policy, upgrade.points, marks, committed, upgrade.data[..], h);
      if result == Ok {
        DeliveredByCommit(policy, stream, expectedCrc, upgrade.data[..], h);
      }
    }

    /** The download slot holds the package, checked, behind its header. */
    ghost predicate Received()
      reads this, header, download, download.data
    {
      && header.Length == HEADER_SIZE && download.data.Length >= SLOT_SIZE
      && PackageChecked(policy, stream, header[..], download.data[..])
      && Installable(policy, download.data[..], header[..])
    }

    lemma ReceivedIsWhole()
      requires Received() && |stream| >= HEADER_SIZE && Verdict(policy, stream, expectedCrc) == Ok
      ensures Delivered(policy, stream, expectedCrc, download.data[..])
      ensures Installable(policy, download.data[..], stream[..HEADER_SIZE])
      ensures PackageChecked(policy, stream, header[..], download.data[..])
    {
      hide Delivered, Verdict, Installable;
      DeliveredWhole(policy, stream, expectedCrc, download.data[..], header[..]);
    }

    /** Transfer CRC, header, size, payload; then the download header, last. */
    method CheckPackage() returns (result: Status)
      requires Wired() && Tidy() && Staged() && receivedSize == packageSize
      modifies copyBuffer, download`points, download.data
      ensures result == Verdict(policy, stream, expectedCrc) || (result == ErrFlash && !download.reliable)
      ensures result == Ok ==> Received()
      ensures Tidy() && WholeSince(policy, stream, expectedCrc, download.points, openedAt)
    {
      hide PayloadStatus, Crc32.Register, HeaderValid, StagesBody, Mirrors, ImageSize, Crc32.Crc;
      hide WholeSince, BlankSince, Unspoilt, Received;
      BlanksAreRejected(policy, stream, expectedCrc, download.points, openedAt);
      MirrorsAll(header[..], stream);
      CrcIsFinished(stream);
      if Crc32.Finished(transferCrc) != expectedCrc {
        return ErrTransferCrc;
      }
      result := CheckHeader(header[..]);
      if result == Ok {
        result := CheckPayload(header[..]);
      }
    }

    lemma CrcIsFinished(bytes: seq<byte>)
      ensures Crc32.Crc(bytes) == Crc32.Finished(Crc32.Register(Crc32.ALL_ONES, bytes))
    {
    }

    /** The header, and the room its payload needs in the package. */
    method CheckHeader(h: Header) returns (result: Status)
      requires packageSize <= SLOT_SIZE
      ensures result == if !HeaderValid(h) then ErrHeader
                        else if PAYLOAD_OFFSET + ImageSize(h) > packageSize then ErrSize
                        else Ok
    {
      hide FieldsValid, AlgorithmValid, CrcOfHeader;
      var valid := HeaderValidate(h);
      var required := (PayloadOffset(h) + ImageSize(h)) % TWO_TO_THE_32;
      if !valid {
        return ErrHeader;
      }
      HeaderBounds(h);
      hide HeaderValid;
      if required < PayloadOffset(h) || required > packageSize {
        return ErrSize;
      }
      return Ok;
    }

    /** The checks of the stored payload, and the download header last. */
    method CheckPayload(h: Header) returns (result: Status)
      requires Wired() && Tidy() && Staged() && receivedSize == packageSize
      requires h == header[..] == stream[..HEADER_SIZE] && HeaderValid(h)
               && PAYLOAD_OFFSET + ImageSize(h) <= packageSize
      requires Crc32.Crc(stream) == expectedCrc
      modifies copyBuffer, download`points, download.data
      ensures result == PayloadStatus(policy, stream[PAYLOAD_OFFSET..PAYLOAD_OFFSET + ImageSize(h)], h)
           || (result == ErrFlash && !download.reliable)
      ensures result == Ok ==> Received()
      ensures Tidy() && WholeSince(policy, stream, expectedCrc, download.points, openedAt)
    {
      hide HeaderValid, PayloadStatus, ImageSize, Payload, Crc32.Crc, StagesBody, Mirrors, Crc32.Register;
      hide HeaderBlank, WholeSince, Unspoilt;
      StagedPayload(download.data[..], stream, packageSize, h);
      BlanksAreRejected(policy, stream, expectedCrc, download.points, openedAt);
      assert copyBuffer.Length == COPY_BUFFER_SIZE && copyBuffer != download.data && download.data.Length >= SLOT_SIZE;
      assert openedAt <= |download.points| && PAYLOAD_OFFSET + ImageSize(h) <= |stream|;
      hide *;
      result := PayloadValidate(download, h);
      if result == Ok {
        PayloadIsChecked(policy, stream, expectedCrc, download.data[..], h);
        result := CloseTransfer(h);
      }
    }

    /** The download header, last. */
    method CloseTransfer(h: Header) returns (result: Status)
      requires Wired() && h == header[..]
      requires Tidy() && HeaderBlank(download.data[..]) && Verified(policy, download.data[..], h)
      requires PackageChecked(policy, stream, h, download.data[..]) && |stream| >= HEADER_SIZE
      requires Verdict(policy, stream, expectedCrc) == Ok
      requires openedAt <= |download.points| && WholeSince(policy, stream, expectedCrc, download.points, openedAt)
      modifies copyBuffer, download`points, download.data
      ensures result == Ok || (result == ErrFlash && !download.reliable)
      ensures result == Ok ==> Received()
      ensures Tidy() && WholeSince(policy, stream, expectedCrc, download.points, openedAt)
    {
      hide PayloadStatus, HeaderValid, ImageSize, Payload, WholeSince, Unspoilt, Installable, HeaderBlank;
      hide HeaderRecorded, CommitPoint, Verdict, PackageChecked;
      ghost var marks, staged := |download.points|, download.data[..];
      result := WriteDownloadHeader(h);
      assert download.points[..marks] == old(download.points);
      HeaderWriteIsWhole(policy, stream, expectedCrc, found, download.points, openedAt, marks, staged,
                         download.data[..], h);
      StillChecked(policy, stream, h, staged, download.data[..]);
    }

    /** The write that closes a transfer; the slot then passes the whole validation. */
    method WriteDownloadHeader(h: Header) returns (result: Status)
      requires Wired() && HeaderBlank(download.data[..]) && Verified(policy, download.data[..], h)
      modifies copyBuffer, download`points, download.data
      ensures result == Ok || (result == ErrFlash && !download.reliable)
      ensures result == Ok ==> Installable(policy, download.data[..], h)
      ensures SamePayload(download.data[..], old(download.data[..]), h)
      ensures old(download.points) <= download.points
      ensures HeaderRecorded(download.points, |old(download.points)|, old(download.data[..]), h)
      ensures download.data[..] == old(download.data[..]) || CommitPoint(policy, download.data[..], h)
    {
      hide HeaderValid, PayloadStatus, Programmed, And, CommitPoint, ProgramRecorded, HeaderRecorded;
      ghost var before, marks := download.data[..], |download.points|;
      var ok, done := download.Write(0, h);
      HeaderIsRecorded(download.points, marks, before, h, done);
      HeaderWritePoint(policy, before, h, done);
      ProgramNothing(before, 0);
      HeaderBounds(h);
      ProgramBlank(before, 0, h[..done]);
      PayloadBehindPrefix(before, download.data[..], h, done);
      if !ok {
        return ErrFlash;
      }
      result := SlotValidate(download, h);
    }

    /** Whatever the slot held, its header is rejected afterwards, unless the device failed. */
    method Abort()
      requires Valid()
      modifies this, download`points, download.data
      ensures Valid()
      ensures !old(locked) ==> unchanged(this) && unchanged(download) && unchanged(download.data)
      ensures old(locked) ==> locked && state == Idle && lastError == Ok && packageSize == 0 && receivedSize == 0
      ensures old(locked) && download.reliable ==> HeaderBlank(download.data[..])
      ensures download.data[..] == old(download.data[..]) || HeaderBlank(download.data[..])
      ensures old(download.points) <= download.points && BlankSince(download.points, |old(download.points)|)
    {
      hide BootSafe, Delivered, Unspoilt, HeaderBlank;
      if !locked {
        return;
      }
      ghost var committed, before, marks := upgrade.data[..], download.data[..], |download.points|;
      var ok, done := download.Erase(0, SECTOR_SIZE);
      assert download.points[..marks] == old(download.points);
      if done != 0 {
        ErasesAreBlank(download.points, marks, before, done);
        ClearedBlank(before, done);
      }
      BlankStaysUnspoilt(policy, found, download.points, marks, before, download.data[..]);
      assert upgrade.data[..] == committed;
      state := Idle;
      lastError := Ok;
      packageSize, receivedSize, firmwareVersion := 0, 0, 0;
    }

    /** The check before the delay and the reset. At that moment the slot holds a delivered package. */
    method RequestReboot() returns (result: Status)
      requires Valid()
      ensures result == Ok ==>
                HeaderValid(SlotHeader(upgrade.data[..])) && Delivered(policy, stream, expectedCrc, upgrade.data[..])
      ensures result in {Ok, ErrState} && (result == Ok <==> state == Ready)
    {
      hide HeaderValid, BootSafe, Verdict, Payload, HoldsImage;
      if state != Ready {
        return ErrState;
      }
      DeliveredIsBootable(policy, stream, expectedCrc, upgrade.data[..]);
      return Ok;
    }
  }
}
