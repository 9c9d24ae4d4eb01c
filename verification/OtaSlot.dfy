/** What the contents of a slot mean, and what a power cut can leave of one. */
module OtaSlot {
  import opened Words
  import opened BootImage
  import opened Flash
  import Crc32
  import Sha256

  datatype State = Uninitialized | Idle | Receiving | Validating | Committing | Ready | Error

  datatype Status =
    | Ok | ErrArgument | ErrState | ErrPartition | ErrSize | ErrFlash | ErrTransferCrc | ErrHeader
    | ErrImageCrc | ErrImageSha256 | ErrSignature | ErrNoMemory | ErrNetwork | ErrProtocol | ErrTimeout
    | ErrPackageSha256 | ErrUnsupported | ErrCancelled
  {
    /** The negated result code. */
    function Code(): nat {
      match this
      case Ok => 0 case ErrArgument => 1 case ErrState => 2 case ErrPartition => 3 case ErrSize => 4
      case ErrFlash => 5 case ErrTransferCrc => 6 case ErrHeader => 7 case ErrImageCrc => 8
      case ErrImageSha256 => 9 case ErrSignature => 10 case ErrNoMemory => 11 case ErrNetwork => 12
      case ErrProtocol => 13 case ErrTimeout => 14 case ErrPackageSha256 => 15 case ErrUnsupported => 16
      case ErrCancelled => 17
    }
  }

  function RoundUpSector(size: nat): (r: nat)
    ensures size <= r < size + SECTOR_SIZE && r % SECTOR_SIZE == 0
    ensures size <= SLOT_SIZE ==> r <= SLOT_SIZE
  {
    (size + SECTOR_SIZE - 1) / SECTOR_SIZE * SECTOR_SIZE
  }

  // ----- what a slot's contents mean -----

  type Slot = c: seq<byte> | |c| >= SLOT_SIZE witness Fill(0, SLOT_SIZE)

  function SlotHeader(c: Slot): Header {
    c[..HEADER_SIZE]
  }

  function Payload(c: Slot, h: Header): (p: seq<byte>)
    requires HeaderValid(h)
    ensures |p| == ImageSize(h)
  {
    c[PAYLOAD_OFFSET..PAYLOAD_OFFSET + ImageSize(h)]
  }

  /** Both slots hold the same payload for this header. */
  predicate SamePayload(c: seq<byte>, d: seq<byte>, h: Header) {
    HeaderValid(h) && |c| >= SLOT_SIZE && |d| >= SLOT_SIZE && Payload(c, h) == Payload(d, h)
  }

  /** The payload checks, in the order the engine makes them. */
  function PayloadStatus(policy: Policy, payload: seq<byte>, h: Header): Status {
    if Crc32.Crc(payload) != ImageCrc(h) then ErrImageCrc
    else if Sha256.Digest(payload) != ImageSha256(h) then ErrImageSha256
    else if !SignatureAccepted(policy, h, Sha256.Digest(payload)) then ErrSignature
    else Ok
  }

  predicate Installable(policy: Policy, c: Slot, h: Header) {
    SlotHeader(c) == h && HeaderValid(h) && PayloadStatus(policy, Payload(c, h), h) == Ok
  }

  /** Whatever its header says, the slot holds a payload that h accepts. */
  predicate Verified(policy: Policy, c: seq<byte>, h: Header) {
    |c| >= SLOT_SIZE && HeaderValid(h) && PayloadStatus(policy, Payload(c, h), h) == Ok
  }

  /** A bootloader that trusts an accepted header never meets a payload that was not verified. */
  predicate BootSafe(policy: Policy, c: seq<byte>) {
    |c| >= SLOT_SIZE && (HeaderValid(SlotHeader(c)) ==> Installable(policy, c, SlotHeader(c)))
  }

  /** What a package, received whole, deserves. */
  function Verdict(policy: Policy, package: seq<byte>, crc: nat): Status
    requires |package| >= HEADER_SIZE
  {
    var h := package[..HEADER_SIZE];
    if Crc32.Crc(package) != crc then ErrTransferCrc
    else if !HeaderValid(h) then ErrHeader
    else if PAYLOAD_OFFSET + ImageSize(h) > |package| then ErrSize
    else PayloadStatus(policy, package[PAYLOAD_OFFSET..PAYLOAD_OFFSET + ImageSize(h)], h)
  }

  /** The slot holds the verified image of this package. */
  ghost predicate Delivered(policy: Policy, package: seq<byte>, crc: nat, c: seq<byte>) {
    && |c| >= SLOT_SIZE && |package| >= HEADER_SIZE
    && Verdict(policy, package, crc) == Ok
    && SlotHeader(c) == package[..HEADER_SIZE]
    && HoldsImage(c, package)
    && BootSafe(policy, c)
  }

  ghost predicate HoldsImage(c: Slot, package: seq<byte>)
    requires |package| >= HEADER_SIZE
  {
    var h := package[..HEADER_SIZE];
    && HeaderValid(h) && PAYLOAD_OFFSET + ImageSize(h) <= |package|
    && Payload(c, h) == package[PAYLOAD_OFFSET..PAYLOAD_OFFSET + ImageSize(h)]
  }

  // ----- a package partly received -----

  /** The header in memory holds the first bytes of the stream, zero behind them. */
  predicate Mirrors(header: seq<byte>, stream: seq<byte>) {
    |header| == HEADER_SIZE && forall i :: 0 <= i < HEADER_SIZE ==> header[i] == if i < |stream| then stream[i] else 0
  }

  /** The slot holds the rest of the stream at its own offsets, and is blank everywhere else. */
  predicate StagesBody(staged: seq<byte>, stream: seq<byte>, size: nat) {
    && |staged| >= SLOT_SIZE && |stream| <= size <= SLOT_SIZE
    && forall i :: 0 <= i < RoundUpSector(size) ==>
         staged[i] == if HEADER_SIZE <= i < |stream| then stream[i] else ERASED
  }

  // ----- crash points of a commit -----

  /** Blank header: what every point of a commit has until its last write. */
  predicate HeaderBlank(c: seq<byte>) {
    |c| >= SLOT_SIZE && forall i :: 0 <= i < HEADER_SIZE ==> c[i] == ERASED
  }

  /** Recorded since a mark: slots with a blank header only. */
  predicate BlankSince(points: seq<seq<byte>>, marks: nat) {
    marks <= |points| && forall i :: marks <= i < |points| ==> HeaderBlank(points[i])
  }

  /** A header accepted while committing h is h, in front of a verified payload. */
  predicate CommitPoint(policy: Policy, c: seq<byte>, h: Header) {
    |c| >= SLOT_SIZE && (HeaderValid(SlotHeader(c)) ==> Installable(policy, c, h))
  }

  lemma BlankIsCommitPoint(policy: Policy, c: seq<byte>, h: Header)
    requires HeaderBlank(c)
    ensures CommitPoint(policy, c, h) && BootSafe(policy, c)
  {
    hide HeaderValid;
    BlankRejected(SlotHeader(c));
  }

  lemma CommitPointIsSafe(policy: Policy, c: seq<byte>, h: Header)
    requires CommitPoint(policy, c, h)
    ensures BootSafe(policy, c)
  {
    hide HeaderValid, PayloadStatus;
  }

  lemma ErasePointBlank(t: seq<byte>, before: seq<byte>, length: nat)
    requires |before| >= SLOT_SIZE && length <= |before|
    requires ErasePoint(t, before, 0, length)
    ensures HeaderBlank(t)
  {
    var end :| 0 < end <= length && end % SECTOR_SIZE == 0 && t == Cleared(before, 0, end);
    assert end >= SECTOR_SIZE;
  }

  lemma ProgramPointBlank(t: seq<byte>, before: seq<byte>, at: nat, bytes: seq<byte>)
    requires HeaderBlank(before) && at >= HEADER_SIZE && at + |bytes| <= |before|
    requires ProgramPoint(t, before, at, bytes)
    ensures HeaderBlank(t)
  {
    hide And;
    var k :| 0 < k <= |bytes| && t == Programmed(before, at, bytes[..k]);
  }

  lemma ErasesAreBlank(points: seq<seq<byte>>, marks: nat, before: seq<byte>, length: nat)
    requires marks <= |points| && |before| >= SLOT_SIZE && ErasedSoFar(points, marks, before, 0, length)
    ensures BlankSince(points, marks)
  {
    hide ErasePoint, HeaderBlank;
    forall i | marks <= i < |points|
      ensures HeaderBlank(points[i])
    {
      ErasePointBlank(points[i], before, length);
    }
  }

  /** A write behind the header keeps the header blank at every byte. */
  lemma ProgramsAreBlank(points: seq<seq<byte>>, marks: nat, before: seq<byte>, after: seq<byte>, at: nat,
                         bytes: seq<byte>, done: nat)
    requires HeaderBlank(before) && at >= HEADER_SIZE && at + |bytes| <= |before| && done <= |bytes|
    requires |points| == marks + done
    requires if done == 0 then after == before
             else after == Programmed(before, at, bytes[..done])
                  && ProgramRecorded(points, marks, before, at, bytes[..done])
    ensures BlankSince(points, marks) && HeaderBlank(after)
  {
    hide HeaderBlank, Programmed, ProgramRecorded, ProgramPoint;
    if done != 0 {
      RecordedArePoints(points, marks, before, at, bytes[..done]);
      forall i | marks <= i < |points|
        ensures HeaderBlank(points[i])
      {
        ProgramPointBlank(points[i], before, at, bytes[..done]);
      }
      ProgrammedIsPoint(before, at, bytes[..done]);
      ProgramPointBlank(after, before, at, bytes[..done]);
    }
  }

  /** Every byte prefix of the header write leaves a commit point. */
  lemma HeaderWritePoint(policy: Policy, before: seq<byte>, h: Header, k: nat)
    requires HeaderBlank(before) && HeaderValid(h) && k <= HEADER_SIZE
    requires PayloadStatus(policy, Payload(before, h), h) == Ok
    ensures CommitPoint(policy, Programmed(before, 0, h[..k]), h)
  {
    hide HeaderValid, PayloadStatus, Programmed;
    ProgramBlank(before, 0, h[..k]);
    var t := Programmed(before, 0, h[..k]);
    assert SlotHeader(t) == Torn(h, k);
    assert Payload(t, h) == Payload(before, h) by {
      HeaderBounds(h);
    }
    TornHeader(h, k);
  }

  lemma HeaderBounds(h: Header)
    requires HeaderValid(h)
    ensures PayloadOffset(h) == PAYLOAD_OFFSET
    ensures 8 <= ImageSize(h) <= IMAGE_MAX_SIZE
  {
    hide CrcOfHeader;
  }

  lemma ClearedClears(contents: seq<byte>, from: nat, mid: nat, to: nat)
    requires from <= mid <= to <= |contents|
    ensures Cleared(Cleared(contents, from, mid), mid, to) == Cleared(contents, from, to)
  {
  }

  lemma ErasePointExtends(t: seq<byte>, before: seq<byte>, at: nat, position: nat, more: nat)
    requires at + position + more <= |before| && position % SECTOR_SIZE == 0
    requires ErasePoint(t, Cleared(before, at, at + position), at + position, more)
    ensures ErasePoint(t, before, at, position + more)
  {
    var mid := at + position;
    var end :| mid < end <= mid + more && (end - mid) % SECTOR_SIZE == 0
      && t == Cleared(Cleared(before, at, mid), mid, end);
    ClearedClears(before, at, mid, end);
    assert (end - at) % SECTOR_SIZE == 0;
  }

  lemma ErasedSoFarExtends(points: seq<seq<byte>>, marks: nat, seen: nat, before: seq<byte>, at: nat, position: nat,
                           more: nat)
    requires marks <= seen <= |points| && at + position + more <= |before| && position % SECTOR_SIZE == 0
    requires ErasedSoFar(points[..seen], marks, before, at, position)
    requires ErasedSoFar(points, seen, Cleared(before, at, at + position), at + position, more)
    ensures ErasedSoFar(points, marks, before, at, position + more)
  {
    hide Cleared;
    forall i | marks <= i < |points|
      ensures ErasePoint(points[i], before, at, position + more)
    {
      if i >= seen {
        ErasePointExtends(points[i], before, at, position, more);
      } else {
        assert ErasePoint(points[..seen][i], before, at, position);
      }
    }
  }

  /** Some whole sectors are erased, from the first on. */
  ghost predicate ErasedPart(after: seq<byte>, before: seq<byte>, at: nat, length: nat)
    requires at + length <= |before|
  {
    exists k :: 0 <= k <= length && k % SECTOR_SIZE == 0 && after == Cleared(before, at, at + k)
  }

  lemma PartErased(before: seq<byte>, at: nat, k: nat, length: nat)
    requires k <= length && at + length <= |before| && k % SECTOR_SIZE == 0
    ensures ErasedPart(Cleared(before, at, at + k), before, at, length)
  {
    hide Cleared;
  }

  lemma ErasedPartBlank(after: seq<byte>, before: seq<byte>, length: nat)
    requires length <= |before| && |before| >= SLOT_SIZE && ErasedPart(after, before, 0, length)
    ensures after == before || HeaderBlank(after)
  {
    var k :| 0 <= k <= length && k % SECTOR_SIZE == 0 && after == Cleared(before, 0, 0 + k);
    if k == 0 {
      ClearedNothing(before, 0);
    } else {
      assert k >= SECTOR_SIZE;
    }
  }

  lemma ClearedBlank(before: seq<byte>, length: nat)
    requires SECTOR_SIZE <= length <= |before| && |before| >= SLOT_SIZE
    ensures HeaderBlank(Cleared(before, 0, length))
    ensures forall i :: 0 <= i < length ==> Cleared(before, 0, length)[i] == ERASED
  {
  }

  /** The erase of a whole area in chunks, the bus being released between them. */
  method EraseExact(partition: Partition, at: nat, length: nat) returns (result: Status)
    requires at % SECTOR_SIZE == 0 && length % SECTOR_SIZE == 0 && at + length <= partition.data.Length
    modifies partition`points, partition.data
    ensures result == Ok || (result == ErrFlash && !partition.reliable)
    ensures result == Ok ==> partition.data[..] == Cleared(old(partition.data[..]), at, at + length)
    ensures ErasedPart(partition.data[..], old(partition.data[..]), at, length)
    ensures old(partition.points) <= partition.points
    ensures result == Ok && length > 0 ==> |old(partition.points)| < |partition.points|
    ensures ErasedSoFar(partition.points, |old(partition.points)|, old(partition.data[..]), at, length)
  {
    hide Cleared, ErasePoint, ErasedPart;
    ghost var before, marks := partition.data[..], |partition.points|;
    var position := 0;
    ClearedNothing(before, at);
    PartErased(before, at, length, length);
    while position < length
      invariant position <= length && position % SECTOR_SIZE == 0
      invariant partition.data[..] == Cleared(before, at, at + position)
      invariant old(partition.points) <= partition.points && (position > 0 ==> marks < |partition.points|)
      invariant ErasedSoFar(partition.points, marks, before, at, position)
    {
      hide ErasedSoFar;
      var chunk := if length - position < ERASE_CHUNK then length - position else ERASE_CHUNK;
      var ok := EraseChunk(partition, before, marks, at, position, chunk, length);
      if !ok {
        return ErrFlash;
      }
      position := position + chunk;
    }
    return Ok;
  }

  method EraseChunk(partition: Partition, ghost before: seq<byte>, ghost marks: nat,
                    at: nat, position: nat, chunk: nat, ghost length: nat)
    returns (ok: bool)
    requires at % SECTOR_SIZE == 0 && position % SECTOR_SIZE == 0 && chunk % SECTOR_SIZE == 0
             && length % SECTOR_SIZE == 0
    requires position + chunk <= length && at + length <= |before| == partition.data.Length
    requires marks <= |partition.points|
    requires partition.data[..] == Cleared(before, at, at + position)
    requires ErasedSoFar(partition.points, marks, before, at, position)
    modifies partition`points, partition.data
    ensures old(partition.points) <= partition.points
            && (ok && chunk > 0 ==> |old(partition.points)| < |partition.points|)
    ensures partition.reliable ==> ok
    ensures ok ==> partition.data[..] == Cleared(before, at, at + position + chunk)
    ensures ok ==> ErasedSoFar(partition.points, marks, before, at, position + chunk)
    ensures ErasedPart(partition.data[..], before, at, length)
    ensures ErasedSoFar(partition.points, marks, before, at, length)
  {
    hide Cleared, ErasedPart;
    ghost var seen := |partition.points|;
    assert partition.points[..seen] == partition.points;
    ghost var done: nat;
    ok, done := partition.Erase(at + position, chunk);
    hide ErasePoint;
    ClearedClears(before, at, at + position, at + position + done);
    PartErased(before, at, position + done, length);
    ErasedSoFarExtends(partition.points, marks, seen, before, at, position, done);
    ErasedSoFarWider(partition.points, marks, before, at, position + done, length);
  }

  lemma ErasedSoFarWider(points: seq<seq<byte>>, marks: nat, before: seq<byte>, at: nat, length: nat, more: nat)
    requires length <= more && at + more <= |before|
    requires ErasedSoFar(points, marks, before, at, length)
    ensures ErasedSoFar(points, marks, before, at, more)
  {
    hide Cleared;
  }

  lemma BlanksAreCommitPoints(policy: Policy, points: seq<seq<byte>>, marks: nat, c: seq<byte>, h: Header)
    requires forall i :: marks <= i < |points| ==> HeaderBlank(points[i])
    ensures forall i :: marks <= i < |points| ==> CommitPoint(policy, points[i], h)
    ensures HeaderBlank(c) ==> CommitPoint(policy, c, h)
  {
    hide HeaderBlank, CommitPoint, BootSafe;
    forall i | marks <= i < |points|
      ensures CommitPoint(policy, points[i], h)
    {
      BlankIsCommitPoint(policy, points[i], h);
    }
    if HeaderBlank(c) {
      BlankIsCommitPoint(policy, c, h);
    }
  }

  lemma ProgramNothing(contents: seq<byte>, at: nat)
    requires at <= |contents|
    ensures Programmed(contents, at, []) == contents
  {
  }

  lemma CopiedMore(before: seq<byte>, after: seq<byte>, source: seq<byte>, offset: nat, position: nat, chunk: nat,
                   size: nat)
    requires |before| == |after| && position + chunk <= size && offset + size <= |before| && offset + size <= |source|
    requires before[offset..offset + position] == source[offset..offset + position]
    requires forall i :: offset + position <= i < offset + size ==> before[i] == ERASED
    requires after[..offset + position] == before[..offset + position]
    requires after[offset + position..offset + position + chunk] == source[offset + position..offset + position + chunk]
    requires after[offset + position + chunk..] == before[offset + position + chunk..]
    ensures after[offset..offset + (position + chunk)] == source[offset..offset + (position + chunk)]
    ensures forall i :: offset + (position + chunk) <= i < offset + size ==> after[i] == ERASED
  {
    var mid, end := offset + position, offset + position + chunk;
    assert after[offset..mid] == after[..mid][offset..] == before[..mid][offset..] == source[offset..mid];
    assert after[offset..end] == after[offset..mid] + after[mid..end];
    assert source[offset..end] == source[offset..mid] + source[mid..end];
    forall i | end <= i < offset + size
      ensures after[i] == ERASED
    {
      assert after[i] == after[end..][i - end] == before[end..][i - end] == before[i];
    }
  }

  lemma ProgrammedIsPoint(before: seq<byte>, at: nat, bytes: seq<byte>)
    requires bytes != [] && at + |bytes| <= |before|
    ensures ProgramPoint(Programmed(before, at, bytes), before, at, bytes)
  {
    hide Programmed;
    assert bytes[..|bytes|] == bytes;
  }

  lemma StoredPayload(c: Slot, h: Header)
    requires HeaderValid(h)
    ensures PayloadOffset(h) + ImageSize(h) <= |c|
    ensures Payload(c, h) == c[PayloadOffset(h)..PayloadOffset(h) + ImageSize(h)]
  {
    HeaderBounds(h);
  }

  // ----- the download slot: an interrupted transfer is told from a complete one -----

  /** An accepted header stands before the whole package, checked. */
  ghost predicate WholeOrRejected(policy: Policy, package: seq<byte>, crc: nat, t: seq<byte>) {
    |t| >= SLOT_SIZE && (HeaderValid(SlotHeader(t)) ==> Delivered(policy, package, crc, t))
  }

  ghost predicate WholeSince(policy: Policy, package: seq<byte>, crc: nat, points: seq<seq<byte>>, marks: nat) {
    marks <= |points| && forall i :: marks <= i < |points| ==> WholeOrRejected(policy, package, crc, points[i])
  }

  lemma BlanksAreRejected(policy: Policy, package: seq<byte>, crc: nat, points: seq<seq<byte>>, marks: nat)
    requires BlankSince(points, marks)
    ensures WholeSince(policy, package, crc, points, marks)
  {
    hide HeaderBlank, HeaderValid, Delivered;
    forall i | marks <= i < |points|
      ensures WholeOrRejected(policy, package, crc, points[i])
    {
      BlankIsRejected(points[i]);
    }
  }

  lemma BlankIsRejected(c: seq<byte>)
    requires HeaderBlank(c)
    ensures |c| >= SLOT_SIZE && !HeaderValid(SlotHeader(c))
  {
    hide HeaderValid;
    BlankRejected(SlotHeader(c));
  }

  /**
   * Recorded since a mark, byte by byte of a header write over a blank header: the first bytes of the header, erased
   * flash behind them, all of it in front of the same payload.
   */
  ghost predicate HeaderRecorded(points: seq<seq<byte>>, marks: nat, before: seq<byte>, h: Header) {
    && |before| >= SLOT_SIZE && HeaderValid(h)
    && marks <= |points| <= marks + HEADER_SIZE
    && forall i :: marks <= i < |points| ==>
        && |points[i]| == |before| && SlotHeader(points[i]) == Torn(h, i - marks + 1)
        && Payload(points[i], h) == Payload(before, h)
  }

  lemma HeaderIsRecorded(points: seq<seq<byte>>, marks: nat, before: seq<byte>, h: Header, done: nat)
    requires HeaderBlank(before) && HeaderValid(h) && done <= HEADER_SIZE
    requires if done == 0 then |points| == marks else ProgramRecorded(points, marks, before, 0, h[..done])
    ensures HeaderRecorded(points, marks, before, h)
  {
    HeaderBounds(h);
    hide HeaderValid, Programmed, Payload, ImageSize, PayloadOffset;
    if done != 0 {
      forall i | marks <= i < |points|
        ensures |points[i]| == |before| && SlotHeader(points[i]) == Torn(h, i - marks + 1)
        ensures Payload(points[i], h) == Payload(before, h)
      {
        assert h[..done][..i - marks + 1] == h[..i - marks + 1];
        HeaderPrefix(before, h, i - marks + 1);
      }
    }
  }

  lemma HeaderPrefix(before: seq<byte>, h: Header, k: nat)
    requires HeaderBlank(before) && HeaderValid(h) && k <= HEADER_SIZE
    ensures var t := Programmed(before, 0, h[..k]);
            SlotHeader(t) == Torn(h, k) && Payload(t, h) == Payload(before, h)
  {
    hide HeaderValid, Programmed, Payload;
    ProgramBlank(before, 0, h[..k]);
    PayloadBehindPrefix(before, Programmed(before, 0, h[..k]), h, k);
  }

  /** Before the last byte that is not erased flash is written, the header is rejected; after it, it is this header. */
  lemma RejectedUntilWhole(points: seq<seq<byte>>, marks: nat, before: seq<byte>, h: Header, i: nat)
    requires HeaderRecorded(points, marks, before, h) && marks <= i < |points|
    ensures HeaderValid(SlotHeader(points[i])) <==> SlotHeader(points[i]) == h
    ensures h[255] != ERASED && i < marks + HEADER_SIZE - 1 ==> !HeaderValid(SlotHeader(points[i]))
  {
    hide HeaderValid, Payload;
    TornHeader(h, i - marks + 1);
    assert i < marks + HEADER_SIZE - 1 ==> Torn(h, i - marks + 1)[255] == ERASED;
  }

  lemma RecordedIsWhole(policy: Policy, package: seq<byte>, crc: nat, points: seq<seq<byte>>, marks: nat,
                        before: seq<byte>, h: Header)
    requires PackageChecked(policy, package, h, before) && Verdict(policy, package, crc) == Ok
    requires HeaderRecorded(points, marks, before, h)
    ensures WholeSince(policy, package, crc, points, marks)
    ensures forall i :: marks <= i < |points| ==> BootSafe(policy, points[i])
  {
    hide HeaderValid, Payload, ImageSize, PayloadStatus, Verdict, Delivered;
    forall i | marks <= i < |points|
      ensures WholeOrRejected(policy, package, crc, points[i]) && BootSafe(policy, points[i])
    {
      RejectedUntilWhole(points, marks, before, h, i);
      if HeaderValid(SlotHeader(points[i])) {
        DeliveredByCommit(policy, package, crc, points[i], h);
      }
    }
  }

  lemma PayloadIsChecked(policy: Policy, package: seq<byte>, crc: nat, staged: Slot, h: Header)
    requires |package| >= HEADER_SIZE && h == package[..HEADER_SIZE] && HeaderValid(h)
    requires PAYLOAD_OFFSET + ImageSize(h) <= |package| && Crc32.Crc(package) == crc
    requires Payload(staged, h) == package[PAYLOAD_OFFSET..PAYLOAD_OFFSET + ImageSize(h)]
    requires PayloadStatus(policy, Payload(staged, h), h) == Ok
    ensures Verified(policy, staged, h) && PackageChecked(policy, package, h, staged)
    ensures Verdict(policy, package, crc) == Ok
  {
    hide HeaderValid, ImageSize, Payload, PayloadStatus, Crc32.Crc;
  }

  lemma StillChecked(policy: Policy, package: seq<byte>, h: Header, before: seq<byte>, after: seq<byte>)
    requires PackageChecked(policy, package, h, before) && |after| == |before|
    requires Payload(after, h) == Payload(before, h)
    ensures PackageChecked(policy, package, h, after)
  {
    hide HeaderValid, ImageSize, Payload, PayloadStatus;
  }

  lemma DeliveredWhole(policy: Policy, package: seq<byte>, crc: nat, c: seq<byte>, h: Header)
    requires PackageChecked(policy, package, h, c) && Verdict(policy, package, crc) == Ok
    requires |package| >= HEADER_SIZE && Installable(policy, c, package[..HEADER_SIZE])
    ensures Delivered(policy, package, crc, c)
  {
    hide HeaderValid, Payload, ImageSize, PayloadStatus, Verdict, Delivered;
    DeliveredByCommit(policy, package, crc, c, h);
  }

  /** The slot, and all it has gone through, is what was found at power-on or safe to boot. */
  ghost predicate Unspoilt(policy: Policy, found: seq<byte>, points: seq<seq<byte>>, c: seq<byte>) {
    (c == found || BootSafe(policy, c)) && forall t :: t in points ==> t == found || BootSafe(policy, t)
  }

  lemma StaysUnspoilt(policy: Policy, found: seq<byte>, points: seq<seq<byte>>, marks: nat, before: seq<byte>,
                      after: seq<byte>)
    requires marks <= |points| && Unspoilt(policy, found, points[..marks], before)
    requires forall i :: marks <= i < |points| ==> BootSafe(policy, points[i])
    requires after == before || BootSafe(policy, after)
    ensures Unspoilt(policy, found, points, after)
  {
    hide BootSafe;
    forall t | t in points
      ensures t == found || BootSafe(policy, t)
    {
      var i :| 0 <= i < |points| && points[i] == t;
      if i < marks {
        assert points[..marks][i] == t;
      }
    }
  }

  /** Blank headers keep it so. */
  lemma BlankStaysUnspoilt(policy: Policy, found: seq<byte>, points: seq<seq<byte>>, marks: nat, before: seq<byte>,
                           after: seq<byte>)
    requires marks <= |points| && Unspoilt(policy, found, points[..marks], before)
    requires BlankSince(points, marks)
    requires after == before || HeaderBlank(after)
    ensures Unspoilt(policy, found, points, after)
  {
    hide BootSafe, HeaderBlank, Unspoilt;
    forall i | marks <= i < |points|
      ensures BootSafe(policy, points[i])
    {
      BlankIsSafe(policy, points[i]);
    }
    if HeaderBlank(after) {
      BlankIsSafe(policy, after);
    }
    StaysUnspoilt(policy, found, points, marks, before, after);
  }

  lemma BlankIsSafe(policy: Policy, c: seq<byte>)
    requires HeaderBlank(c)
    ensures BootSafe(policy, c)
  {
    hide HeaderValid;
    BlankRejected(SlotHeader(c));
  }

  /** The header write ends a transfer that left blank headers only. */
  lemma HeaderWriteIsWhole(policy: Policy, package: seq<byte>, crc: nat, found: seq<byte>, points: seq<seq<byte>>,
                           openedAt: nat, marks: nat, before: seq<byte>, after: seq<byte>, h: Header)
    requires openedAt <= marks <= |points| && WholeSince(policy, package, crc, points[..marks], openedAt)
    requires Unspoilt(policy, found, points[..marks], before)
    requires PackageChecked(policy, package, h, before) && Verdict(policy, package, crc) == Ok
    requires HeaderRecorded(points, marks, before, h)
    requires after == before || CommitPoint(policy, after, h)
    ensures WholeSince(policy, package, crc, points, openedAt)
    ensures Unspoilt(policy, found, points, after)
  {
    hide WholeOrRejected, HeaderRecorded, PackageChecked, Verdict, BootSafe, CommitPoint, Unspoilt;
    RecordedIsWhole(policy, package, crc, points, marks, before, h);
    forall i | openedAt <= i < |points|
      ensures WholeOrRejected(policy, package, crc, points[i])
    {
      assert i < marks ==> points[..marks][i] == points[i];
    }
    if CommitPoint(policy, after, h) {
      CommitPointIsSafe(policy, after, h);
    }
    StaysUnspoilt(policy, found, points, marks, before, after);
  }

  // ----- a package received whole -----

  /** The staged package passed every check. */
  ghost predicate PackageChecked(policy: Policy, package: seq<byte>, h: seq<byte>, staged: seq<byte>) {
    && |h| == HEADER_SIZE && |staged| >= SLOT_SIZE && |package| >= HEADER_SIZE
    && h == package[..HEADER_SIZE] && HeaderValid(h)
    && PAYLOAD_OFFSET + ImageSize(h) <= |package|
    && Payload(staged, h) == package[PAYLOAD_OFFSET..PAYLOAD_OFFSET + ImageSize(h)]
    && PayloadStatus(policy, Payload(staged, h), h) == Ok
  }

  /** A delivered slot starts with the header of the package and holds its image. */
  lemma DeliveredParts(policy: Policy, package: seq<byte>, crc: nat, c: seq<byte>)
    requires Delivered(policy, package, crc, c)
    ensures |c| >= SLOT_SIZE && |package| >= HEADER_SIZE && c[..HEADER_SIZE] == package[..HEADER_SIZE]
            && HoldsImage(c, package)
  {
    hide Verdict, BootSafe, HoldsImage;
  }

  lemma HeldImage(c: Slot, package: seq<byte>)
    requires |package| >= HEADER_SIZE && HoldsImage(c, package)
    ensures var h := package[..HEADER_SIZE];
            && HeaderValid(h) && PAYLOAD_OFFSET + ImageSize(h) <= |package| && PAYLOAD_OFFSET + ImageSize(h) <= |c|
            && c[PAYLOAD_OFFSET..PAYLOAD_OFFSET + ImageSize(h)]
              == package[PAYLOAD_OFFSET..PAYLOAD_OFFSET + ImageSize(h)]
  {
    HeaderBounds(package[..HEADER_SIZE]);
    hide HeaderValid, ImageSize;
  }

  lemma PayloadBehindPrefix(before: Slot, after: Slot, h: Header, done: nat)
    requires HeaderValid(h) && done <= HEADER_SIZE
    requires after == before[..0] + h[..done] + before[done..]
    ensures Payload(after, h) == Payload(before, h)
    ensures done == HEADER_SIZE ==> SlotHeader(after) == h
  {
    HeaderBounds(h);
    hide HeaderValid, ImageSize;
    assert h[..HEADER_SIZE] == h;
    assert Payload(after, h) == Payload(before, h) by {
      forall i | 0 <= i < ImageSize(h)
        ensures Payload(after, h)[i] == Payload(before, h)[i]
      {
        assert after[PAYLOAD_OFFSET + i] == before[PAYLOAD_OFFSET + i];
      }
    }
  }

  lemma MirrorsAll(header: seq<byte>, stream: seq<byte>)
    requires Mirrors(header, stream) && |stream| >= HEADER_SIZE
    ensures header == stream[..HEADER_SIZE]
  {
  }

  lemma StagedPayload(staged: seq<byte>, stream: seq<byte>, size: nat, h: Header)
    requires StagesBody(staged, stream, size) && HeaderValid(h)
    requires |stream| == size >= HEADER_SIZE && PAYLOAD_OFFSET + ImageSize(h) <= size
    ensures HeaderBlank(staged)
    ensures Payload(staged, h) == stream[PAYLOAD_OFFSET..PAYLOAD_OFFSET + ImageSize(h)]
  {
    hide HeaderValid, ImageSize;
  }

  lemma VerdictIsNotState(policy: Policy, package: seq<byte>, crc: nat)
    requires |package| >= HEADER_SIZE
    ensures Verdict(policy, package, crc) in {Ok, ErrTransferCrc, ErrHeader, ErrSize, ErrImageCrc, ErrImageSha256,
            ErrSignature}
  {
    hide Crc32.Crc, Sha256.Digest, HeaderValid, SignatureAccepted;
  }

  lemma CommitKeepsSafe(policy: Policy, points: seq<seq<byte>>, marks: nat, before: seq<byte>, after: seq<byte>,
                        h: Header)
    requires marks <= |points| && BootSafe(policy, before)
    requires forall t :: t in points[..marks] ==> BootSafe(policy, t)
    requires forall i :: marks <= i < |points| ==> CommitPoint(policy, points[i], h)
    requires after == before || CommitPoint(policy, after, h)
    ensures BootSafe(policy, after)
    ensures forall t :: t in points ==> BootSafe(policy, t)
  {
    hide BootSafe, CommitPoint;
    forall t | t in points
      ensures BootSafe(policy, t)
    {
      var i :| 0 <= i < |points| && points[i] == t;
      if i < marks {
        assert points[..marks][i] == t;
      } else {
        CommitPointIsSafe(policy, t, h);
      }
    }
    if CommitPoint(policy, after, h) {
      CommitPointIsSafe(policy, after, h);
    }
  }

  lemma DeliveredByCommit(policy: Policy, package: seq<byte>, crc: nat, c: seq<byte>, h: Header)
    requires |c| >= SLOT_SIZE && |package| >= HEADER_SIZE && h == package[..HEADER_SIZE]
    requires Verdict(policy, package, crc) == Ok && BootSafe(policy, c)
    requires Installable(policy, c, h) && PAYLOAD_OFFSET + ImageSize(h) <= |package|
    requires Payload(c, h) == package[PAYLOAD_OFFSET..PAYLOAD_OFFSET + ImageSize(h)]
    ensures Delivered(policy, package, crc, c)
  {
    hide Verdict, BootSafe, HeaderValid, PayloadStatus, Payload, ImageSize;
  }

  /** The first point since a mark has a blank header. */
  predicate FirstBlank(points: seq<seq<byte>>, marks: nat) {
    marks < |points| && HeaderBlank(points[marks])
  }

  lemma DeliveredIsBootable(policy: Policy, package: seq<byte>, crc: nat, c: seq<byte>)
    requires Delivered(policy, package, crc, c)
    ensures |c| >= SLOT_SIZE && HeaderValid(SlotHeader(c)) && BootSafe(policy, c)
  {
    hide HeaderValid, BootSafe, Verdict, Payload;
  }

  lemma CopiedPayload(copy: Slot, source: Slot, h: Header)
    requires HeaderValid(h) && PayloadOffset(h) == PAYLOAD_OFFSET && PAYLOAD_OFFSET + ImageSize(h) <= SLOT_SIZE
    requires copy[PAYLOAD_OFFSET..PAYLOAD_OFFSET + ImageSize(h)]
             == source[PAYLOAD_OFFSET..PAYLOAD_OFFSET + ImageSize(h)]
    ensures Payload(copy, h) == Payload(source, h)
  {
    hide HeaderValid, ImageSize, PayloadOffset;
  }
}
