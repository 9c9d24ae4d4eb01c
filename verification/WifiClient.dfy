/** The host side of the upload protocol, and the upload from end to end. */
module WifiClient {
  import opened Basics
  import opened Words
  import opened BootImage
  import opened Flash
  import opened OtaSlot
  import opened OtaEngine
  import opened WifiProtocol
  import opened WifiServer
  import opened MkImage
  import Crc32
  import Sha256

  /** The host's own look at a package before it sends it: version and image size, or nothing. */
  function InspectPackage(package: seq<byte>): Option<(nat, nat)> {
    if |package| < BUILT_HEADER_SIZE then None
    else
      var h := package[..BUILT_HEADER_SIZE];
      if Magic(h) != BUILT_MAGIC || Version(h) != BUILT_VERSION || HeaderSize(h) != BUILT_HEADER_SIZE
        || Flags(h) % 2 == 0
         || HardwareId(h) != BUILT_HARDWARE_ID || LoadAddress(h) != BUILT_APP_BASE
         || PayloadOffset(h) + ImageSize(h) > |package| || CrcOfHeader(h) != HeaderCrc(h) then None
      else
        var payload := package[PayloadOffset(h)..PayloadOffset(h) + ImageSize(h)];
        if Crc32.Crc(payload) != ImageCrc(h) || Sha256.Digest(payload) != ImageSha256(h)
          || SignatureSize(h) > BUILT_SIGNATURE_SIZE then None
        else Some((FirmwareVersion(h), ImageSize(h)))
  }

  /** The host never holds back a package the engine would install. */
  lemma InspectionIsLenient(policy: Policy, package: seq<byte>, crc: nat, h: Header)
    requires |package| >= HEADER_SIZE && h == package[..HEADER_SIZE] && Verdict(policy, package, crc) == Ok
    ensures InspectPackage(package) == Some((FirmwareVersion(h), ImageSize(h)))
  {
    hide Crc32.Crc, Sha256.Digest, SignatureAccepted, U32, U16;
  }

  class Client {
    var sequence: nat

    constructor ()
      ensures sequence == 0
    {
      sequence := 0;
    }

    /** One request and the wait for its response; success means the device answered OK. */
    method Request(server: Server, kind: nat, payload: seq<byte>, offset: nat)
      returns (ok: bool, next: Next, ghost result: Status)
      requires server.engine.Valid() && this as object !in {server as object, server.engine}
      requires kind in {MSG_BEGIN, MSG_DATA, MSG_END, MSG_ABORT, MSG_REBOOT}
      requires |payload| <= MAX_FRAME_PAYLOAD && offset < TWO_TO_THE_32 && sequence + 1 < TWO_TO_THE_32
      modifies this, server, server.engine, server.engine.header, server.engine.copyBuffer,
               server.engine.download`points, server.engine.download.data,
               server.engine.upgrade`points, server.engine.upgrade.data
      ensures server.engine.Valid() && sequence == old(sequence) + 1
      ensures Performs(server.engine.policy, server.Reliable(), old(server.Look()), kind, offset, payload, result,
              server.Look())
      ensures ok ==> result == Ok
      ensures server.lossless && result == Ok ==> ok
      ensures ok && kind == MSG_END ==> next == if server.beginFlags % 2 == 1 then Reset else Continue
    {
      hide Performs, Verdict, Delivered, BootSafe, WifiProtocol.Request, Response, Parse, ParseResponse;
      sequence := sequence + 1;
      var frame := WifiProtocol.Request(kind, sequence, offset, payload);
      ParseRequest(kind, sequence, offset, payload, []);
      assert frame + [] == frame;
      var consumed, response;
      consumed, response, next, result := server.Step(frame);
      if next == Break {
        ok := false;
        return;
      }
      ParseOwnResponse(kind, sequence, result, []);
      ok := ParseResponse(response, kind, sequence).Answered?;
    }

    method SendBegin(server: Server, package: seq<byte>, crc: nat, flags: nat) returns (ok: bool, next: Next)
      requires server.engine.Valid() && this as object !in {server as object, server.engine}
      requires |package| <= SLOT_SIZE && crc < TWO_TO_THE_32 && flags <= 1 && sequence + 1 < TWO_TO_THE_32
      modifies this, server, server.engine, server.engine.header, server.engine.copyBuffer,
               server.engine.download`points, server.engine.download.data,
               server.engine.upgrade`points, server.engine.upgrade.data
      ensures server.engine.Valid() && sequence == old(sequence) + 1
      ensures ok ==> server.Look() == View(true, Receiving, |package|, crc, [], true, flags) && |package| >= HEADER_SIZE
      ensures server.lossless && server.Reliable() && old(server.engine.locked)
              && old(server.engine.state) != Receiving ==>
                (ok <==> |package| >= HEADER_SIZE)
    {
      BeginPayloadFields(|package|, crc, flags);
      hide BeginPayload, U32, Verdict, Delivered, BootSafe, DataPerforms, EndPerforms, OtherPerforms;
      ghost var result;
      ok, next, result := Request(server, HOST_BEGIN, BeginPayload(|package|, crc, flags), 0);
    }

    method SendChunk(server: Server, package: seq<byte>, crc: nat, flags: nat, offset: nat, end: nat)
      returns (ok: bool, next: Next)
      requires server.engine.Valid() && this as object !in {server as object, server.engine}
      requires offset < end <= |package| <= SLOT_SIZE && end - offset <= MAX_FRAME_PAYLOAD
               && sequence + 1 < TWO_TO_THE_32
      requires server.Look() == View(true, Receiving, |package|, crc, package[..offset], true, flags)
      modifies this, server, server.engine, server.engine.header, server.engine.copyBuffer,
               server.engine.download`points, server.engine.download.data,
               server.engine.upgrade`points, server.engine.upgrade.data
      ensures server.engine.Valid() && sequence == old(sequence) + 1
      ensures ok ==> server.Look() == View(true, Receiving, |package|, crc, package[..end], true, flags)
      ensures server.lossless && server.Reliable() ==> ok
    {
      hide Engine.Valid, Verdict, Delivered, BootSafe, Performs;
      ghost var before := server.Look();
      ghost var result;
      ok, next, result := Request(server, HOST_DATA, package[offset..end], offset);
      DataStep(server.engine.policy, server.Reliable(), before, offset, package[offset..end], result, server.Look());
      assert package[..offset] + package[offset..end] == package[..end];
    }

    method SendChunks(server: Server, package: seq<byte>, crc: nat, flags: nat, chunkSize: nat)
      returns (ok: bool, next: Next)
      requires server.engine.Valid() && this as object !in {server as object, server.engine}
      requires 1 <= chunkSize <= MAX_FRAME_PAYLOAD && |package| <= SLOT_SIZE && sequence + |package| < TWO_TO_THE_32
      requires server.Look() == View(true, Receiving, |package|, crc, [], true, flags)
      modifies this, server, server.engine, server.engine.header, server.engine.copyBuffer,
               server.engine.download`points, server.engine.download.data,
               server.engine.upgrade`points, server.engine.upgrade.data
      ensures server.engine.Valid() && sequence <= old(sequence) + |package|
      ensures ok ==> server.Look() == View(true, Receiving, |package|, crc, package, true, flags)
      ensures server.lossless && server.Reliable() ==> ok
    {
      hide Engine.Valid, Verdict, Delivered, BootSafe, Performs;
      ok, next := true, Continue;
      var offset := 0;
      while offset < |package|
        invariant offset <= |package| && sequence <= old(sequence) + offset && ok
        invariant server.engine.Valid()
        invariant server.Look() == View(true, Receiving, |package|, crc, package[..offset], true, flags)
      {
        var end := Min(offset + chunkSize, |package|);
        ok, next := SendChunk(server, package, crc, flags, offset, end);
        if !ok {
          return;
        }
        offset := end;
      }
      assert package[..offset] == package;
    }

    method SendEnd(server: Server, package: seq<byte>, crc: nat, flags: nat) returns (ok: bool, next: Next)
      requires server.engine.Valid() && this as object !in {server as object, server.engine}
      requires HEADER_SIZE <= |package| && sequence + 1 < TWO_TO_THE_32
      requires server.Look() == View(true, Receiving, |package|, crc, package, true, flags)
      modifies this, server, server.engine, server.engine.header, server.engine.copyBuffer,
               server.engine.download`points, server.engine.download.data,
               server.engine.upgrade`points, server.engine.upgrade.data
      ensures server.engine.Valid()
      ensures ok ==> server.engine.state == Ready && server.engine.stream == package && server.engine.expectedCrc == crc
      ensures ok ==> next == if flags % 2 == 1 then Reset else Continue
      ensures server.lossless && server.Reliable() ==> (ok <==> Verdict(server.engine.policy, package, crc) == Ok)
    {
      hide Engine.Valid, Verdict, Delivered, BootSafe, BeginPerforms, DataPerforms, OtherPerforms;
      ghost var result;
      ok, next, result := Request(server, HOST_END, [], 0);
    }

    /**
     * BEGIN, the package in chunks, END. Whatever faults occur, an upload that reports success has put this package's
     * verified image into the upgrade slot. Without faults, on a device that is not receiving, it succeeds exactly
     * for the packages the engine accepts.
     */
    method Upload(server: Server, package: seq<byte>, reboot: bool, chunkSize: nat) returns (ok: bool, next: Next)
      requires server.engine.Valid() && this as object !in {server as object, server.engine}
      requires 1 <= chunkSize <= MAX_FRAME_PAYLOAD && |package| <= SLOT_SIZE
      requires sequence + |package| + 2 < TWO_TO_THE_32
      modifies this, server, server.engine, server.engine.header, server.engine.copyBuffer,
               server.engine.download`points, server.engine.download.data,
               server.engine.upgrade`points, server.engine.upgrade.data
      ensures server.engine.Valid()
      ensures ok ==> server.engine.state == Ready
      ensures ok ==> Delivered(server.engine.policy, package, Crc32.Crc(package), server.engine.upgrade.data[..])
      ensures ok ==> next == if reboot then Reset else Continue
      ensures server.lossless && server.Reliable() && old(server.engine.locked)
              && old(server.engine.state) != Receiving ==>
                (ok <==> |package| >= HEADER_SIZE && Verdict(server.engine.policy, package, Crc32.Crc(package)) == Ok)
    {
      hide Verdict, Delivered, BootSafe, Crc32.Crc;
      var crc := Crc32.Calculate(package);
      var flags := if reboot then 1 else 0;
      ok, next := SendBegin(server, package, crc, flags);
      if ok {
        ok, next := SendChunks(server, package, crc, flags, chunkSize);
      }
      if ok {
        ok, next := SendEnd(server, package, crc, flags);
      }
    }
  }

  /**
   * From an application image to the upgrade slot: an image the builder accepts, signed with the trusted key, is
   * installed by one upload with any chunk size over a faultless link and flash.
   */
  method InstallImage(client: Client, server: Server, image: seq<byte>, version: int, sign: Signer, padSlot: bool,
                      reboot: bool, chunkSize: nat, h: Header)
    returns (ok: bool, next: Next)
    requires server.engine.Valid() && client as object !in {server as object, server.engine}
    requires server.lossless && server.Reliable() && server.engine.locked && server.engine.state != Receiving
    requires BuildHeader(image, version, Some(sign)) == Some(h) && Trusted(server.engine.policy, sign)
    requires 1 <= chunkSize <= MAX_FRAME_PAYLOAD && client.sequence + SLOT_SIZE + 2 < TWO_TO_THE_32
    modifies client, server, server.engine, server.engine.header, server.engine.copyBuffer,
             server.engine.download`points, server.engine.download.data,
             server.engine.upgrade`points, server.engine.upgrade.data
    ensures server.engine.Valid()
    ensures ok && server.engine.state == Ready && next == if reboot then Reset else Continue
    ensures ImageStored(server.engine.upgrade.data[..], h, image)
  {
    hide BuildHeader, BootSafe, Verdict, Crc32.Crc, Delivered, Package, Trusted;
    BuiltPackageAccepted(server.engine.policy, image, version, sign, padSlot, h);
    BuiltHeader(image, version, Some(sign), h);
    BuiltSize(image, version, sign, h);
    var package := Package(h, image, padSlot);
    hide HeaderValid, ImageSize, ImageStored;
    ok, next := client.Upload(server, package, reboot, chunkSize);
    DeliveredImage(server.engine.policy, package, Crc32.Crc(package), server.engine.upgrade.data[..], h, image);
  }

  lemma BuiltSize(image: seq<byte>, version: int, sign: Signer, h: Header)
    requires BuildHeader(image, version, Some(sign)) == Some(h)
    ensures |image| <= IMAGE_MAX_SIZE
  {
  }

  lemma DataStep(policy: Policy, reliable: bool, v: View, offset: nat, chunk: seq<byte>, result: Status, w: View)
    requires Performs(policy, reliable, v, MSG_DATA, offset, chunk, result, w)
    requires v.receiving && v.state == Receiving && offset == |v.stream| && 0 < |chunk| <= v.packageSize - offset
    ensures result == Ok ==> w == v.(stream := v.stream + chunk)
    ensures reliable ==> result == Ok
  {
  }

  /** The slot holds this header and this image. */
  predicate ImageStored(c: seq<byte>, h: Header, image: seq<byte>) {
    && |c| >= SLOT_SIZE && PAYLOAD_OFFSET + |image| <= |c|
    && c[..HEADER_SIZE] == h && c[PAYLOAD_OFFSET..PAYLOAD_OFFSET + |image|] == image
  }

  lemma DeliveredImage(policy: Policy, package: seq<byte>, crc: nat, c: seq<byte>, h: Header, image: seq<byte>)
    requires Delivered(policy, package, crc, c) && |package| >= HEADER_SIZE
    requires package[..HEADER_SIZE] == h && HeaderValid(h) && ImageSize(h) == |image|
    requires PAYLOAD_OFFSET + |image| <= |package| && package[PAYLOAD_OFFSET..PAYLOAD_OFFSET + |image|] == image
    ensures ImageStored(c, h, image)
  {
    hide *;
    DeliveredParts(policy, package, crc, c);
    HeldImage(c, package);
    ImageIsStored(c, h, image);
  }

  lemma ImageIsStored(c: seq<byte>, h: Header, image: seq<byte>)
    requires |c| >= SLOT_SIZE && PAYLOAD_OFFSET + |image| <= |c|
    requires c[..HEADER_SIZE] == h && c[PAYLOAD_OFFSET..PAYLOAD_OFFSET + |image|] == image
    ensures ImageStored(c, h, image)
  {
  }
}
