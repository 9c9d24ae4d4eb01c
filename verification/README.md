# The firmware update path of the H743 board, and its JSON library

The board receives a firmware package over Wi-Fi or HTTP, checks it, and installs it into a flash slot a bootloader
starts from. This project models the update engine, the producer and the transports around it, the two hash functions,
and the JSON library the controller talks with, and proves what they are for.

## What is modelled

- **Flash** (`Flash`): a partition is an array of bytes. Erasing sets sectors to 0xFF in ascending order, each at once;
  programming ANDs bytes in, one after the other. Any erase, program or read may fail on a device that is not
  `reliable`. A partition records its contents after every sector and every byte: these `points` are what a power cut
  can leave.
- **Package** (`Basics`, `Words`, `BootImage`, `OtaSlot`, `MkImage`): the 256-byte header, its validation, the bytes that
  are signed, the verdict on a package, and the producer. A signature scheme is a predicate `verify`; a trusted signer
  makes signatures that verify. The policy says whether unsigned packages are allowed.
- **Engine** (`OtaEngine`, `OtaRuns`): one object whose methods are the calls of `ota.c`, each atomic under the engine's
  lock. Its invariant ties the download slot, the header in memory and the CRC register to the bytes received so far, and
  says that the upgrade slot is safe to boot in its present content and in every recorded point, and the download slot,
  too, once it is no longer what power-on found. `OtaRuns.Run` is any sequence of calls, reboot requests, later resets and
  power cuts.
- **Transports** (`WifiProtocol`, `WifiServer`, `WifiClient`, `HttpDownload`): frame codec, request loop, client and
  download loop over the engine object. Sockets and the web client are faults chosen at will; what the progress callback
  answers is an input. Producer and host client have their own constants.
- **Controller** (`RemoteController`): the controller thread, any number of UI threads and the command queue as a step
  relation; theorems quantify over all runs.
- **Hashes** (`Sha256`, `Sha256Constants`, `Sha256Vectors`, `Crc32`): the streaming contexts against FIPS 180-4 and RFC
  1952. The round constants and the initial state are proved to be bits of the roots of the first 64 primes, and the
  published digests and check value are computed.
- **JSON values** (`Json`, `JsonToken`, `JsonSort`, `JsonPointer`, `JsonCompare`, `JsonPatch`, `JsonPatchMeaning`,
  `JsonPatchDocument`, `JsonDiff`, `JsonDiffExact`, `JsonMergePatch`): trees with ordered members and the hidden `prev` of the first one;
  `ValueOf` forgets both. Operations of the library on trees are proved to do what RFC 6901, RFC 6902 and RFC 7396 say on
  values.
- **JSON text** (`JsonText`, `JsonString`, `JsonSpelling`, `JsonGrammar`, `JsonRoundTrip`, `JsonParser`, `JsonPrinter`): a
  specification of what is accepted and printed as functions of the text, the offset-moving parser and buffer-writing
  printer that meet it, and the grammar of RFC 8259 as a relation between texts and trees, from the writer's side: every
  text it allows is read, and what the printer writes is one of them. One character stands for one byte.
- **JSON lists** (`JsonList`, `JsonListSort`): the doubly linked child list whose head's `prev` is the tail, and the
  merge sort that relinks it.

## Where the code does not do what one would expect

Each of these is proved, with the exact condition where there is one and a concrete input.

- A reboot is checked and then delayed. Another transport may install a package meanwhile, and the reset may strike
  while the header of the slot is blank; a commanded boot meets an accepted header if no finish has gone on to its commit
  since the check (`OtaRuns.Run`, `OtaRuns.ResetDuringCommit`). What a boot meets is safe in any case.
- A second BEGIN, or an END sent too early, leaves the engine receiving with nobody to finish. This lasts over every
  session until somebody sends an empty ABORT (`WifiServer.OrphansExactly`, `WifiServer.OrphanSurvives`,
  `WifiServer.OrphaningSession`).
- A storage hook that reports the running version overwrites the update on offer (`RemoteController.GenuineExactly`).
- The in-progress flag of the controller stays set if the offer is withdrawn before the run starts
  (`RemoteController.WedgesExactly`, `RemoteController.WedgedRun`).
- Array indices are decoded too leniently: the digit loop tests the wrong character against 9, so `1a` is element 59; an
  empty token is element 0; and the word wraps, so the decimal of 2^32 is element 0 as well. An operation then changes an
  element that RFC 6901 does not point to (`JsonPointer.IndexDecoded`, `JsonPointer.IndexDefects`,
  `JsonPointer.LaxResolves`, `JsonPatchMeaning.LaxRemoves`). The theorems about pointers and patches hold for tokens the
  library understands as RFC 6901 does.
- After a sort the head's `prev` is the tail only if both ends stayed in place (`JsonListSort.SortMembers`,
  `JsonSort.EndsStay`). A later append then drops the item or the nodes behind a stale `prev`, and reports success. A test
  operation sorts its target, so an addition after it can be lost (`JsonPatchMeaning.TestThenAdd`,
  `JsonPatchMeaning.TestLosesAddition`, `JsonListSort.PairLosesItem`).
- The merge-patch generator sorts without case below the top but walks with case, so it can miss that both objects have a
  name. Generating and merging then still reaches the second tree exactly if, at every object walked, no name is passed
  in the second object while the first one still has it, a name that is met has the same value or a round trip of its
  own, and every other value, also of a name deleted first and added later, is free of nulls below objects; and no null
  is set (`JsonMergePatch.MergePatchRoundTrip`, `JsonMergePatch.NamesReached`). `a`, `B` against `B` fails
  (`JsonMergePatch.CaseBreaksWalk`); `B` against `a`, `B` does not (`JsonMergePatch.DeletedFirst`).
- Where both orders agree the walk meets every common name, and generating and merging gives the target exactly if no null
  has to be set (`JsonMergePatch.OrderedWalkable`, `JsonMergePatch.WalkedIsMergeable`, `JsonMergePatch.MergeDiff`).
- A key comes back from an escaped pointer only if it is decodable: unescaping works inside the token's own buffer and
  moves no ordinary character, so `a/b` and `a~b` are lost (`JsonToken.TokenSurvives`, `JsonDiff.AddedMemberRoundTrip`).
- Removing a member by patch ignores case in any mode, so an earlier member that differs in case only is removed instead
  (`JsonDiff.RemovesExactly`). The patch and merge round trips are therefore stated for names that are distinct up to case
  and spelled alike in both trees, the patch round trip moreover for decodable names.
- Moving or copying to the root fails, and a move has removed its source by then (`JsonPatchMeaning.RootIsNoTarget`).
- A `\u` escape with digits that are not hexadecimal is read as NUL (`JsonString.WrittenIsLiteral`).
- The tree is parsed back exactly if it is nested at most 1000 deep (`JsonRoundTrip.ParsePrint`).

## How the proofs are laid out

Each class method is proved against a specification function or predicate on plain values; the lemmas are about those.
`hide` statements keep proofs small. Words of the C code are natural numbers below their bound except inside the two
hash modules, where they are bit-vectors; the cast of `payload_offset + image_size` is written out.

## Model

| member | source | states |
|---|---|---|
| `OtaEngine.Engine.CommitToUpgrade` | applications/ota/ota.c:212-262 | Crash atomicity: at every sector-erase and byte-program point of the commit the upgrade slot is unchanged, or its header is rejected, or it is the new header in front of a payload that passed CRC, SHA-256 and signature; on success the slot is installable |
| `OtaRuns.Run` | applications/ota/ota.c:307-585 | Safety of every run: for any callers, calls, flash faults and delays, and any number of power cuts, every boot meets a rejected header or a verified payload in the upgrade slot, and in the download slot what the run found there or again a rejected header or a verified payload; a boot commanded by a request made in READY meets an accepted header if no finish has gone on to its commit since the request |
| `OtaRuns.Perform` | applications/ota/ota.c:307-585 | One step by any caller keeps the engine invariant and says which of the reboot requests still waiting for their delay are undisturbed; a reset or a power cut at any recorded point starts a new life over what the flash holds |
| `OtaRuns.ResetDuringCommit` | applications/ota/ota.c:570-585 | The condition is needed: for every engine in READY and every package it would accept, another transport may install that package during the delay, and a reset that strikes in its commit meets a rejected header |
| `OtaSlot.DeliveredIsBootable` | applications/ota/ota.c:570-585 | A slot that holds a delivered package has an accepted header |
| `OtaEngine.Engine.constructor` | applications/ota/ota.c:16-28 | A fresh engine over two large enough partitions satisfies the invariant without having been initialised |
| `OtaEngine.Engine.ServiceInit` | applications/ota/ota.c:271-305 | Initialisation is idempotent, and failing to get memory changes nothing |
| `OtaEngine.Engine.Begin` | applications/ota/ota.c:307-358 | Exactly which sizes and states are refused and what then stays unchanged; success opens an empty transfer over an erased slot and marks where it began; a fault leaves ERROR |
| `OtaEngine.Engine.StartReceiving` | applications/ota/ota.c:333-357 | The reset of the transfer state and the erase establish the receiving invariant for the empty stream |
| `OtaEngine.Engine.Write` | applications/ota/ota.c:360-416 | Chunking does not matter: an accepted chunk extends the stream by exactly its bytes; out-of-order, oversized and empty chunks are refused without effect, both directions |
| `OtaEngine.Engine.Accept` | applications/ota/ota.c:385-415 | The receiving invariant is kept: download slot equals the stream from 256 on and is erased elsewhere, the header copy holds the first 256 bytes, the CRC register is that of everything received, and at no point since the begin has the slot had a header |
| `OtaEngine.Engine.MirrorHeader` | applications/ota/ota.c:387-397 | The bytes below offset 256, and no others, go to the header in memory |
| `OtaEngine.Engine.StageBody` | applications/ota/ota.c:399-404 | The other bytes are programmed onto erased flash only, so they are stored exactly |
| `OtaEngine.Engine.Finish` | applications/ota/ota.c:418-503 | Without a flash fault the result is the verdict on the received package, computed independently of the chunks; READY exactly on success, and then both slots hold the package behind its header; refused exactly for an incomplete or closed transfer, without effect; the upgrade slot is touched only by a complete package that passes every check; whatever the result, at every point since the begin an accepted header in the download slot stands before the whole package |
| `OtaEngine.Engine.Complete` | applications/ota/ota.c:437-502 | The verdict decides between READY and ERROR; READY with the whole package in the download slot, and with no other accepted header there since the begin |
| `OtaEngine.Engine.CheckPackage` | applications/ota/ota.c:438-484 | Transfer CRC, header, size and payload are checked in this order, with the first failure as the result; success leaves the download slot installable with the header received, and no point of the transfer has another accepted header |
| `OtaEngine.Engine.CheckHeader` | applications/ota/ota.c:446-457 | The header is refused first, then a payload that ends behind the package; the 32-bit sum of offset and size does not wrap for an accepted header |
| `OtaEngine.Engine.CheckPayload` | applications/ota/ota.c:459-484 | The status of the staged payload, and on success the slot closed by its header |
| `OtaEngine.Engine.CloseTransfer` | applications/ota/ota.c:468-484 | The header written last: no point before has an accepted header other than that of the whole package |
| `OtaEngine.Engine.Install` | applications/ota/ota.c:486-493 | The commit keeps boot safety and delivers the verified image to the upgrade slot |
| `OtaEngine.Engine.WriteDownloadHeader` | applications/ota/ota.c:468-484 | The header is written last, in front of an unchanged payload, byte by byte over a blank one; success means that the slot passes the whole validation with exactly this header |
| `OtaSlot.RejectedUntilWhole` | applications/ota/ota.c:468-474 | Every byte recorded of the header write leaves a rejected header unless it is this one already, which before the last byte needs a header that ends in erased flash |
| `OtaSlot.RecordedIsWhole` | applications/ota/ota.c:468-474 | So an interrupted transfer is told from a complete one: an accepted header stands before the whole package |
| `OtaEngine.Engine.Abort` | applications/ota/ota.c:505-525 | An initialised engine returns to IDLE with no transfer, and, unless the device failed, the header of the download slot is blank and so rejected; every point on the way is blank too; an uninitialised engine is untouched |
| `OtaEngine.Engine.RequestReboot` | applications/ota/ota.c:570-579 | The check before the delay passes exactly in READY, and the slot then holds the delivered package behind an accepted header |
| `OtaEngine.Engine.PayloadValidate` | applications/ota/ota.c:147-191 | Hashing the stored payload in buffer-sized reads decides CRC, SHA-256 and signature of the whole payload |
| `OtaEngine.Engine.HashStored` | applications/ota/ota.c:157-181 | The chunked reads feed both hashes the bytes of the area in order |
| `OtaEngine.Engine.SlotValidate` | applications/ota/ota.c:193-210 | The stored header must be valid and equal the expected one, and the payload must pass |
| `OtaEngine.Engine.CopyPayload` | applications/ota/ota.c:225-246 | The copy loop leaves the payload of the download slot behind a still blank header |
| `OtaEngine.Engine.EraseForCommit` | applications/ota/ota.c:214-223 | From the first erased sector on, the header of the upgrade slot is blank |
| `OtaEngine.Engine.WriteUpgradeHeader` | applications/ota/ota.c:255-261 | Every prefix of the header write leaves a rejected header or the whole new one |
| `OtaSlot.EraseExact` | applications/ota/ota.c:56-81 | Erasing in chunks of at most 64 KiB clears exactly the range, in ascending whole sectors; each point between is recorded |
| `OtaSlot.RoundUpSector` | applications/ota/ota.c:30-34 | The least multiple of the sector size that is not smaller |
| `OtaSlot.HeaderWritePoint` | applications/ota/ota.c:255-261 | Any prefix of a valid header over a blank one, in front of a verified payload, is a safe point |
| `OtaSlot.CommitPointIsSafe` | applications/ota/ota.c:212-262 | A safe point of a commit is one a bootloader may trust |
| `OtaSlot.CommitKeepsSafe` | applications/ota/ota.c:212-262 | All points of a commit keep the slot safe |
| `Flash.Partition.Erase` | applications/ota/ota.c:56-81 | Sectors become 0xFF one after the other; a fault stops after whole sectors; each point is recorded |
| `Flash.Partition.Write` | applications/ota/ota.c:46-54 | Programming ANDs bytes in one after the other; a fault stops after a prefix; exactly one point is recorded for each byte, in order |
| `Flash.Partition.Read` | applications/ota/ota.c:36-44 | A read copies the stored bytes into the buffer or fails |
| `Flash.ProgramBlank` | applications/ota/ota.c:46-54 | Programming an erased area stores the bytes |
| `BootImage.HeaderValidate` | applications/ota/ota.c:108-145 | The chain of checks decides header validity as defined field by field |
| `BootImage.BytesAreZero` | applications/ota/ota.c:96-106 | The accumulating loop decides whether all bytes are zero |
| `BootImage.DigestEqual` | applications/ota/ota.c:83-94 | The constant-time comparison decides equality |
| `BootImage.TornHeader` | applications/ota/ota.c:108-145 | The first k bytes of an accepted header followed by 0xFF are accepted if and only if they are the whole header; no assumption on CRC collisions |
| `BootImage.BlankRejected` | applications/ota/ota.c:108-145 | An erased header is rejected |
| `BootImage.BuildSignedData` | applications/ota/ota_signature.c:27-50 | The advancing cursor fills the 80 bytes with exactly the signed fields |
| `BootImage.SignedDataBinds` | applications/ota/ota_signature.c:27-50 | Equal signed data bind equal identity, layout and algorithm fields and equal digests |
| `BootImage.SignatureVerify` | applications/ota/ota_signature.c:52-83 | Accepted exactly for a permitted unsigned header or a signature that verifies over the digest of the signed data |
| `Sha256.Context.Update` | applications/ota/ota_hash.c:157-180 | The context absorbs the message extended by the data |
| `Sha256.Context.Finish` | applications/ota/ota_hash.c:182-207 | The digest is that of the padded whole (section 5.1.1 of FIPS 180-4), with one or two final blocks |
| `Sha256.Context.Transform` | applications/ota/ota_hash.c:44-104 | One block compression as in section 6.2.2 of FIPS 180-4, in place; what that is, is settled by the laws of the constants and by the published digests |
| `Sha256Constants.RoundConstantsAreCubeRoots` | applications/ota/ota_hash.c:8-26 | Each round constant is the first 32 bits behind the point of the cube root of the prime with its number (section 4.2.2 of FIPS 180-4) |
| `Sha256Constants.CubeRootBitsUnique` | applications/ota/ota_hash.c:8-26 | That law leaves no other constant |
| `Sha256Constants.PrimeNumberUnique` | applications/ota/ota_hash.c:8-26 | There is one prime with a given number of primes below it |
| `Sha256Constants.InitialStateIsSquareRoots` | applications/ota/ota_hash.c:144-155 | Each word of the initial state is the first 32 bits behind the point of the square root of its prime (section 5.3.3 of FIPS 180-4) |
| `Sha256Constants.SquareRootBitsUnique` | applications/ota/ota_hash.c:144-155 | That law leaves no other word |
| `Sha256Vectors.AbcDigest` | applications/ota/ota_hash.c:28-207 | The digest of "abc", one block, is the published one, computed round by round |
| `Sha256Vectors.LettersDigest` | applications/ota/ota_hash.c:28-207 | The digest of the published 56-byte message, two blocks, is the published one |
| `Sha256Vectors.LoadStore` | applications/ota/ota_hash.c:28-42 | A word stored big-endian is loaded again |
| `Sha256.Context.MakeSchedule` | applications/ota/ota_hash.c:58-72 | The in-place schedule is the message schedule |
| `Sha256.Context.Init` | applications/ota/ota_hash.c:144-155 | The initial state has absorbed nothing |
| `Sha256.DigestChunks` | applications/ota/ota_hash.c:144-207 | For any split of a message below 2^61 bytes into updates the result is the digest of the whole |
| `Sha256.PaddedInBlocks` | applications/ota/ota_hash.c:182-207 | The blocks written by finish are the padding of the message, also when the length needs a second block |
| `Sha256.BlocksAppend` | applications/ota/ota_hash.c:157-180 | Hashing blocks composes over concatenation |
| `Crc32.Context.Update` | applications/ota/ota_hash.c:111-129 | The bitwise update absorbs the data into the register |
| `Crc32.Calculate` | applications/ota/ota_hash.c:136-142 | The one-shot call is the CRC of the data |
| `Crc32.StepIsMasked` | applications/ota/ota_hash.c:121-126 | The branch-free mask form of a step is the shift with conditional reduction |
| `Crc32.RegisterComposes` | applications/ota/ota_hash.c:111-129 | Updates compose over concatenation |
| `Crc32.StepBijective` | applications/ota/ota_hash.c:121-126 | The step on the register has an inverse |
| `Crc32.StepsInjective` | applications/ota/ota_hash.c:111-129 | Equal registers after equally many steps were equal before |
| `Crc32.FinishedInjective` | applications/ota/ota_hash.c:131-134 | Different registers give different CRC values |
| `Crc32.RegisterIsBitSerial` | applications/ota/ota_hash.c:111-129 | Absorbing bytes is feeding their bits, least significant first (section 8 of RFC 1952) |
| `Crc32.BitsInjective` | applications/ota/ota_hash.c:111-129 | Messages with equal bits are equal |
| `Crc32.BurstDetected` | applications/ota/ota_hash.c:136-142 | Messages of equal length that differ only inside a window of at most 32 bits have different CRCs |
| `Crc32.PolynomialOfStandard` | applications/ota/ota_hash.c:121-126 | The constant is the generator polynomial of the standard, reflected |
| `Crc32.CheckValue` | applications/ota/ota_hash.c:111-142 | The CRC of "123456789" is 0xCBF43926 |
| `MkImage.BuiltHeader` | tools/mkimage.py:118-168 | The built header passes the engine's validation and states size, version, CRC and SHA-256 of the image |
| `MkImage.HeaderLayout` | applications/ota/boot_image.h:24-42 | Every field of the built header lies little-endian at its offset in the packed structure, with the constants of the format |
| `MkImage.SignedDataAgrees` | tools/mkimage.py:73-97 | Producer and device build the same bytes to sign |
| `MkImage.BuiltPackageAccepted` | tools/mkimage.py:118-168 | A package built and signed with the trusted key gets the verdict OK |
| `MkImage.UnsignedPackage` | tools/mkimage.py:118-168 | An unsigned package is accepted exactly where the policy allows it |
| `MkImage.PackageParts` | tools/mkimage.py:231-233 | Header and image lie where the engine looks for them, padded or not |
| `WifiProtocol.DecodeEncode` | applications/ota/ota_wifi.c:23-48 | Little-endian frame headers are read back exactly |
| `WifiProtocol.FrameLayout` | applications/ota/README_EN.md:84-92 | Each field of a frame lies little-endian at the offset the protocol table gives |
| `WifiProtocol.MagicOnTheWire` | applications/ota/ota_wifi.h:6 | The magic of both ends reads OTA1 on the wire |
| `WifiProtocol.ParseRequest` | tools/ota_wifi_client.py:111-122 | The frame the client sends is the request the server reads |
| `WifiProtocol.ParseOwnResponse` | tools/ota_wifi_client.py:124-141 | The client takes a response as success exactly when the device answered OK to this request |
| `WifiProtocol.BeginPayloadFields` | tools/ota_wifi_client.py:156-159 | Size, CRC and flags of BEGIN survive the wire |
| `WifiServer.Server.Dispatch` | applications/ota/ota_wifi.c:206-285 | What each request does to the engine and the session, with its result |
| `WifiServer.Server.DispatchBegin` | applications/ota/ota_wifi.c:220-231 | BEGIN needs 12 bytes and opens the transfer |
| `WifiServer.Server.DispatchData` | applications/ota/ota_wifi.c:233-240 | DATA only inside a transfer of this session |
| `WifiServer.Server.DispatchEnd` | applications/ota/ota_wifi.c:242-253 | END closes the claim of the session in any case |
| `WifiServer.Server.Step` | applications/ota/ota_wifi.c:149-297 | One turn of the request loop: what is consumed, answered and done for malformed, rejected, query and other frames |
| `WifiServer.Server.HandleClient` | applications/ota/ota_wifi.c:143-304 | The whole session is a trace of turns that fit each other, the bytes read and the bytes answered; it leaves by reset, by a failed query reply, or by the end of the connection, when the transfer it still claims is aborted; the engine is still receiving only after a failed query reply or without a claim |
| `WifiServer.TransferOnlyGrows` | applications/ota/ota_wifi.c:206-285 | An open transfer changes only by in-order DATA |
| `WifiServer.OrphansExactly` | applications/ota/ota_wifi.c:220-253 | A session loses its claim on a transfer the engine keeps open exactly by a second well-formed BEGIN or an END before the package is complete |
| `WifiServer.OrphanStays` | applications/ota/ota_wifi.c:206-285 | Every request leaves such a transfer open, unclaimed and with the bytes it had, except an empty ABORT |
| `WifiServer.OrphanSurvives` | applications/ota/ota_wifi.c:143-304 | The same over any number of requests and sessions |
| `WifiServer.OrphaningSession` | applications/ota/ota_wifi.c:143-304 | A byte stream that always does it: BEGIN, then END |
| `WifiClient.InspectionIsLenient` | tools/ota_wifi_client.py:39-86 | The host never refuses a package the engine would install |
| `WifiClient.Client.Request` | tools/ota_wifi_client.py:108-141 | Success means the device performed the request with result OK, and conversely on a faultless link |
| `WifiClient.Client.SendChunks` | tools/ota_wifi_client.py:160-164 | The chunk loop delivers the package in order, for every chunk size |
| `WifiClient.Client.Upload` | tools/ota_wifi_client.py:153-173 | A reported success has installed this package; without faults success comes exactly for packages the engine accepts |
| `WifiClient.InstallImage` | tools/ota_wifi_client.py:153-173 | End to end: every image the producer accepts and signs ends in the upgrade slot, for every chunk size |
| `HttpDownload.ParseSha256` | applications/ota/ota_http.c:30-51 | Accepts exactly 64 hexadecimal digits and decodes them |
| `HttpDownload.HexRoundTrip` | applications/ota/ota_http.c:16-51 | A digest written in hexadecimal of either case is read back |
| `HttpDownload.CheckHead` | applications/ota/ota_http.c:98-145 | Exactly which requests and response heads lead to a begin, and that the decoded digest is the one asked for |
| `HttpDownload.Download` | applications/ota/ota_http.c:85-240 | For any answers of the progress callback: after its own begin the engine is READY exactly when its finish succeeded and IDLE otherwise, never RECEIVING; READY means the streamed bytes have the requested size, CRC and SHA-256 and are installed, and every answer before was granted; a refused answer is the last one and the result, and the upgrade slot, contents and points, is as it was; without flash faults it succeeds if and only if all answers are granted and the body is complete, has the digest and is accepted; what the callback is told is exactly the announced schedule, or a prefix of it |
| `HttpDownload.Transfer` | applications/ota/ota_http.c:154-221 | The transfer succeeds only if every answer was granted and the streamed bytes hash to the expected digest; without faults exactly then and for an accepted package; in any other case the upgrade slot is unchanged |
| `HttpDownload.Receive` | applications/ota/ota_http.c:162-203 | Every short read is hashed and stored; the loop ends with the first answer refused, as its result; while answers are granted and without faults the result is Ok for reads that come to the size, the network error for a missing one, the size error for one too long, whichever is first |
| `HttpDownload.Fetch` | applications/ota/ota_http.c:154-211 | All that comes before the digest is compared: success exactly for granted answers and a complete body, on a device without faults; the upgrade slot is not touched |
| `HttpDownload.StepsAreFew` | applications/ota/ota_http.c:188-203 | Progress is reported at steps of 5 percent and at the end only: at most 20 times, however small the reads |
| `HttpDownload.StepsEndWhole` | applications/ota/ota_http.c:188-203 | The last report of a complete body is 100 percent of it |
| `RemoteController.AtMostOneUpdate` | applications/ota/ota_remote.c:1070-1094 | In every run of UI threads, queue failures and the controller, queued accepts plus an uncleared run never exceed one |
| `RemoteController.TokensStep` | applications/ota/ota_remote.c:801-871 | Every step keeps the token count |
| `RemoteController.UpdateStep` | applications/ota/ota_remote.c:667-721 | Without the overwriting hook every step keeps: a valid update was delivered and is genuine, and runs past their check have a valid update |
| `RemoteController.GenuineExactly` | applications/ota/ota_remote.c:483-507 | In every run each download starts with the fields of a delivered, matching and newer response, if and only if the storage hook does not report the running version as pending; a later clear of the hook and what a finished download stores are part of the runs |
| `RemoteController.OverwrittenRun` | applications/ota/ota_remote.c:483-507 | A run in which the hook replaces the accepted update, so the download starts without a URL |
| `RemoteController.WedgedForEver` | applications/ota/ota_remote.c:592-601 | A flag set with nothing left to clear it stays set under every step |
| `RemoteController.WedgesExactly` | applications/ota/ota_remote.c:592-601 | The flag gets stuck exactly when a run starts after the update was withdrawn |
| `RemoteController.WithdrawnRun` | applications/ota/ota_remote.c:667-721 | A run in which a response that withdraws the offer is queued ahead of the accept command |
| `RemoteController.WedgedRun` | applications/ota/ota_remote.c:592-601 | A run in which that happens, by a message queued ahead of the accept command |
| `JsonSort.SortSorts` | packages/cJSON-v1.7.17/cJSON_Utils.c:485-594 | Sorting gives an ordered permutation, equal keys included |
| `JsonSort.MergeSorted` | packages/cJSON-v1.7.17/cJSON_Utils.c:535-593 | Merging two ordered lists is ordered |
| `JsonSort.SortGood` | packages/cJSON-v1.7.17/cJSON_Utils.c:596-603 | Sorting an object keeps its value |
| `JsonSort.EndsStay` | packages/cJSON-v1.7.17/cJSON_Utils.c:485-603 | The head's prev survives a sort exactly when the first member is below all others and the last one above all others |
| `JsonSort.BelowFirst` | packages/cJSON-v1.7.17/cJSON_Utils.c:1226-1273 | In a sorted object a key below the first one is absent, which the diff relies on |
| `JsonListSort.SortList` | packages/cJSON-v1.7.17/cJSON_Utils.c:485-594 | The relinking sort terminates and makes the next chain the merge sort of the nodes; prev is right on every node but the head, whose prev is the old one if it was the head before and null otherwise |
| `JsonListSort.SortMembers` | packages/cJSON-v1.7.17/cJSON_Utils.c:596-603 | The same for the list of an object: the list invariant survives if and only if it is empty or its first and last node stay in place, and otherwise the head's prev leads where the ranks of the members say |
| `JsonListSort.SortPlaces` | packages/cJSON-v1.7.17/cJSON_Utils.c:485-594 | Every node ends at its rank: the number of smaller keys and, among equal keys, of those behind it |
| `JsonListSort.PairLosesItem` | packages/cJSON-v1.7.17/cJSON.c:1966-1997 | The instance `b`, `a`: after the sort an append reports success and drops the item |
| `JsonListSort.FindMiddle` | packages/cJSON-v1.7.17/cJSON_Utils.c:510-522 | The slow walk stops at the middle, rounded up |
| `JsonListSort.Split` | packages/cJSON-v1.7.17/cJSON_Utils.c:523-528 | Cutting at the middle leaves two proper chains |
| `JsonListSort.MergeLists` | packages/cJSON-v1.7.17/cJSON_Utils.c:535-593 | Merging by relinking uses every node once in the order of the merge; the head keeps the prev it had |
| `JsonListSort.IsSorted` | packages/cJSON-v1.7.17/cJSON_Utils.c:499-508 | The first loop decides whether the list is strictly sorted |
| `JsonList.List.ChainedIsValid` | packages/cJSON-v1.7.17/cJSON.c:1966-1997 | What a sort leaves is a valid list exactly when the head's prev is the last node |
| `JsonList.List.GetItem` | packages/cJSON-v1.7.17/cJSON.c:1861-1878 | The node at an index, none behind the end |
| `JsonList.List.Append` | packages/cJSON-v1.7.17/cJSON.c:1966-1997 | Appending goes through the head's prev: to the end of a valid list; after a sort over the nodes behind a stale prev, or nowhere for a null one |
| `JsonList.List.Detach` | packages/cJSON-v1.7.17/cJSON.c:2197-2231 | Detaching removes the node from the sequence, keeps all links and clears the node's own |
| `JsonList.List.Insert` | packages/cJSON-v1.7.17/cJSON.c:2273-2305 | Inserting before an index, or appending behind the end, keeps all links |
| `JsonList.List.Replace` | packages/cJSON-v1.7.17/cJSON.c:2307-2354 | Replacing puts the node in the same place, keeps all links and detaches the old one |
| `JsonCompare.CompareDecides` | packages/cJSON-v1.7.17/cJSON_Utils.c:605-691 | Trees compare equal exactly when they have the same value, for any distinct names in case-sensitive mode and for names spelled alike otherwise |
| `JsonPointer.GetItem` | packages/cJSON-v1.7.17/cJSON_Utils.c:302-347 | The walk down a pointer finds the node the pointer denotes, or nothing |
| `JsonPointer.IndexDecoded` | packages/cJSON-v1.7.17/cJSON_Utils.c:275-300 | Exactly which tokens are read as an array index, as which one modulo 2^32, and exactly where that is the index of section 4 of RFC 6901 |
| `JsonPointer.IndexDefects` | packages/cJSON-v1.7.17/cJSON_Utils.c:286-290 | The instances `1a`, read as 59, the empty token, read as 0, and the decimal of 2^32, read as 0 |
| `JsonPointer.LaxResolves` | packages/cJSON-v1.7.17/cJSON_Utils.c:302-347 | A token read as an index it is not leads to the element at its positional value modulo 2^32 of every array that long, where RFC 6901 leads nowhere |
| `JsonPointer.FoundIsUnderstood` | packages/cJSON-v1.7.17/cJSON_Utils.c:302-347 | A pointer that section 4 of RFC 6901 leads somewhere is understood in either mode, with arrays of fewer than 2^32 elements |
| `JsonPointer.ResolveRefines` | packages/cJSON-v1.7.17/cJSON_Utils.c:302-347 | A pointer, escapes included, leads somewhere in a tree exactly when section 4 of RFC 6901 leads it somewhere in its value, and to the same value, for all tokens the library understands as that section does |
| `JsonPointer.PutRefines` | packages/cJSON-v1.7.17/cJSON_Utils.c:302-347 | Changing the node such a pointer leads to changes the value there and nothing else |
| `JsonPointer.DecodeDecimal` | packages/cJSON-v1.7.17/cJSON_Utils.c:275-300 | A decimal index is an index and read back modulo 2^32, whatever follows the token; it is misread exactly from 2^32 on |
| `JsonPointer.CompareToken` | packages/cJSON-v1.7.17/cJSON_Utils.c:121-155 | A token, escapes included, names exactly the member of that name, up to case if that is asked |
| `JsonPatch.ApplyPatches` | packages/cJSON-v1.7.17/cJSON_Utils.c:1039-1095 | The loop over a patch document applies the operations in order up to the first failure, each on the tree the ones before left, hidden pointers included; anything but an array is malformed |
| `JsonPatchMeaning.DetachRefines` | packages/cJSON-v1.7.17/cJSON_Utils.c:431-482 | Detaching succeeds exactly when the pointer has an item and removes that item only, by the index of section 4 of RFC 6901 |
| `JsonPatchMeaning.LaxRemoves` | packages/cJSON-v1.7.17/cJSON_Utils.c:431-482 | Removing by a token read as an index it is not takes an element out, where RFC 6902 has nothing to remove |
| `JsonPatchMeaning.AddRefines` | packages/cJSON-v1.7.17/cJSON_Utils.c:960-1024 | Adding to a tree whose hidden pointers are in order succeeds exactly when the parent exists and takes the child, and adds it only |
| `JsonPatchMeaning.ApplyRemove` | packages/cJSON-v1.7.17/cJSON_Utils.c:808-1037 | A remove operation removes the item, or fails when there is none (section 4.2 of RFC 6902) |
| `JsonPatchMeaning.ApplyAdd` | packages/cJSON-v1.7.17/cJSON_Utils.c:808-1037 | An add operation adds the value, or fails when the parent cannot take it (section 4.1 of RFC 6902) |
| `JsonPatchMeaning.ApplyReplace` | packages/cJSON-v1.7.17/cJSON_Utils.c:808-1037 | A replace operation sets the value at the pointer, the root included, or fails when there is none (section 4.3 of RFC 6902) |
| `JsonPatchMeaning.ApplyMove` | packages/cJSON-v1.7.17/cJSON_Utils.c:906-1024 | A move takes the item out and adds it where the path leads afterwards, or fails when either cannot be done (section 4.4 of RFC 6902) |
| `JsonPatchMeaning.ApplyCopy` | packages/cJSON-v1.7.17/cJSON_Utils.c:906-1024 | A copy adds the value the other pointer leads to (section 4.5 of RFC 6902) |
| `JsonPatchMeaning.ApplyTest` | packages/cJSON-v1.7.17/cJSON_Utils.c:832-837 | A test succeeds exactly when the pointer leads to that value, and changes no value (section 4.6 of RFC 6902) |
| `JsonPatchMeaning.RootIsNoTarget` | packages/cJSON-v1.7.17/cJSON_Utils.c:906-981 | A move or copy to the root always fails; the move has removed its source by then |
| `JsonPatchMeaning.AddsMemberExactly` | packages/cJSON-v1.7.17/cJSON_Utils.c:1006-1018 | The status is 0 in any case, and the member is added and no other one lost exactly when the head's prev is the last node |
| `JsonPatchMeaning.TestThenAdd` | packages/cJSON-v1.7.17/cJSON_Utils.c:605-691 | A test of an object followed by an addition to it returns 0; the member is there exactly when the sort by the test left both ends in place |
| `JsonPatchMeaning.TestLosesAddition` | packages/cJSON-v1.7.17/cJSON_Utils.c:605-691 | The instance `{"b":1,"a":1}`: an added `c` is lost with status 0 |
| `JsonPatchMeaning.SortedStays` | packages/cJSON-v1.7.17/cJSON_Utils.c:605-691 | Comparing leaves a tree whose objects are sorted as it is |
| `JsonPatchDocument.DocumentApplied` | packages/cJSON-v1.7.17/cJSON_Utils.c:808-1095 | Applying a document of add, remove, replace, move and copy operations is applying those operations of RFC 6902 to the value in order: it succeeds exactly if each does, and leaves the value they lead to |
| `JsonPatchDocument.DoesOperation` | packages/cJSON-v1.7.17/cJSON_Utils.c:808-1037 | One operation, as any document states it, succeeds exactly if it does on the value, and leaves the same value |
| `JsonDiff.Generate` | packages/cJSON-v1.7.17/cJSON_Utils.c:1142-1280 | The recursive generator appends exactly the specified operations to those found so far, none for equal numbers or strings |
| `JsonDiff.GenerateItems` | packages/cJSON-v1.7.17/cJSON_Utils.c:1171-1214 | The three array loops: change in place, remove left-over elements at one index, append missing ones |
| `JsonDiff.GenerateMembers` | packages/cJSON-v1.7.17/cJSON_Utils.c:1216-1275 | The simultaneous walk over two sorted objects |
| `JsonDiff.ItemsAt` | packages/cJSON-v1.7.17/cJSON_Utils.c:1171-1214 | The array operations turn the one array into the other, growing and shrinking included |
| `JsonDiff.MembersAt` | packages/cJSON-v1.7.17/cJSON_Utils.c:1216-1275 | The member operations turn the one object into the other, whatever the case of the names |
| `JsonDiff.RoundTripAt` | packages/cJSON-v1.7.17/cJSON_Utils.c:1142-1280 | At any place of any tree the operations put the second value there and change nothing else |
| `JsonDiff.PatchRoundTrip` | packages/cJSON-v1.7.17/cJSON_Utils.c:1282-1310 | Applying the generated patch to any copy of the first tree returns 0 and gives the second, up to member order, for decodable names that are spelled alike in both trees and arrays of fewer than 2^32 elements |
| `JsonDiffExact.GeneratedExactly` | packages/cJSON-v1.7.17/cJSON_Utils.c:1142-1280 | The patch holds exactly one operation for each difference of the two values, so none if and only if they are equal, and each operation points to a place at and above which the values differ, for trees whose names are spelled alike |
| `JsonDiffExact.PatchesExact` | packages/cJSON-v1.7.17/cJSON_Utils.c:1142-1280 | The same at any place of the walk |
| `JsonDiffExact.NoDifferences` | packages/cJSON-v1.7.17/cJSON_Utils.c:1142-1280 | The number of differences, counted on values without the generator, is zero exactly for equal values |
| `JsonToken.TokenSurvives` | packages/cJSON-v1.7.17/cJSON_Utils.c:360-392 | A key survives escaping and in-place unescaping exactly when it is decodable |
| `JsonDiff.AddedMemberRoundTrip` | packages/cJSON-v1.7.17/cJSON_Utils.c:360-392 | The round trip of one added member holds if and only if its key is decodable |
| `JsonDiff.RemovesExactly` | packages/cJSON-v1.7.17/cJSON_Utils.c:465-468 | A member is removed exactly when no earlier one has its name up to case |
| `JsonMergePatch.ApplyMergePatch` | packages/cJSON-v1.7.17/cJSON_Utils.c:1322-1380 | The loop over the members of a merge patch computes the specified tree |
| `JsonMergePatch.MergeRefines` | packages/cJSON-v1.7.17/cJSON_Utils.c:1322-1380 | Merging trees whose names are spelled alike is the merge of section 2 of RFC 7396 on their values |
| `JsonMergePatch.GenerateRefines` | packages/cJSON-v1.7.17/cJSON_Utils.c:1392-1472 | Where the walk works, no patch exactly for equal objects; otherwise the patch is the difference of the values |
| `JsonMergePatch.MergeDiff` | packages/cJSON-v1.7.17/cJSON_Utils.c:1322-1472 | Merging the difference gives the target if and only if the pair is mergeable: no null is to be set where the two differ |
| `JsonMergePatch.MergePatchRoundTrip` | packages/cJSON-v1.7.17/cJSON_Utils.c:1322-1482 | Generating and merging into any copy of the first tree gives the second if and only if it is reached: nowhere the walk passes a name too early, what it meets is equal or reached in turn, and what it adds is not null and clean; no patch exactly for equal objects |
| `JsonMergePatch.MeetsExactly` | packages/cJSON-v1.7.17/cJSON_Utils.c:1407-1460 | The generated patch names no member twice if and only if the walk meets every common name, and its names lie between the differences and the union |
| `JsonMergePatch.OrderedWalkable` | packages/cJSON-v1.7.17/cJSON_Utils.c:1392-1472 | The walk works wherever the order without case is also the order with case |
| `JsonMergePatch.TopOrdered` | packages/cJSON-v1.7.17/cJSON_Utils.c:1392-1472 | In case-sensitive mode the top object is always ordered alike |
| `JsonMergePatch.LowerOrdered` | packages/cJSON-v1.7.17/cJSON_Utils.c:1392-1472 | Names without capitals are always ordered alike |
| `JsonMergePatch.NamesReached` | packages/cJSON-v1.7.17/cJSON_Utils.c:1322-1472 | Name by name: exactly which names of the second object are left by generating and merging, and exactly which of them with its value; no other name is |
| `JsonMergePatch.WalkedIsMergeable` | packages/cJSON-v1.7.17/cJSON_Utils.c:1392-1472 | Where the walk meets every common name, the pairs that are reached are those whose values are mergeable |
| `JsonMergePatch.CleanIsMergeable` | packages/cJSON-v1.7.17/cJSON_Utils.c:1322-1380 | A target without null below objects is always reached |
| `JsonMergePatch.CaseBreaksWalk` | packages/cJSON-v1.7.17/cJSON_Utils.c:1407-1445 | The instance `a`, `B` against `B`: sorted without case, the walk passes a name both have, and the second object is not reached |
| `JsonMergePatch.DeletedFirst` | packages/cJSON-v1.7.17/cJSON_Utils.c:1407-1460 | The instance `B` against `a`, `B`: the walk does not meet `B`, yet deletes it first and adds it later, and the second object is reached |
| `JsonRoundTrip.ReadBack` | packages/cJSON-v1.7.17/cJSON.c:1322-1835 | Reading a printed value back gives that value and stops right behind it, at any indentation; it fails exactly when it is nested too deep; only a number needs something behind it that ends it |
| `JsonRoundTrip.PrintWrites` | packages/cJSON-v1.7.17/cJSON.c:1377-1835 | The printed text of a tree, formatted or not, is one of the texts of the grammar that write it |
| `JsonGrammar.WrittenIsRead` | packages/cJSON-v1.7.17/cJSON.c:1322-1721 | Every text that writes a tree by the grammar of RFC 8259, whatever blanks and spellings its writer chose, is read as that tree and no further, if and only if it is nested within the limit |
| `JsonGrammar.TextIsRead` | packages/cJSON-v1.7.17/cJSON.c:1089-1183 | The same for a whole text: after a byte order mark or none and any blanks; where the end is required, exactly if blanks only follow |
| `JsonRoundTrip.ParsePrint` | packages/cJSON-v1.7.17/cJSON.c:1089-1183 | Parsing the formatted or unformatted text of a tree gives the tree, member order included, if and only if it is nested at most 1000 deep; every hidden pointer is in order then |
| `JsonRoundTrip.PrintParseFixed` | packages/cJSON-v1.7.17/cJSON.c:1089-1319 | For every accepted text whose numbers are 32-bit integers the tree is printable and nested at most 1000 deep, and its printed text parses to the same tree |
| `JsonRoundTrip.AcceptedValue` | packages/cJSON-v1.7.17/cJSON.c:1322-1374 | At any depth an accepted value fits the nesting that is left |
| `JsonRoundTrip.ReadIntegerReads` | packages/cJSON-v1.7.17/cJSON.c:310-384 | What the proofs ask of the number conversion can be met |
| `JsonRoundTrip.StringBack` | packages/cJSON-v1.7.17/cJSON.c:783-1031 | A printed string is read back: the printer's spelling is one of those that are read |
| `JsonRoundTrip.NumberBack` | packages/cJSON-v1.7.17/cJSON.c:310-384 | A printed 32-bit integer is read back and ends where its text ends |
| `JsonRoundTrip.PrintTerminated` | packages/cJSON-v1.7.17/cJSON.c:1377-1448 | Printed text contains no NUL |
| `JsonString.Scan` | packages/cJSON-v1.7.17/cJSON.c:796-818 | The first pass finds the closing quote and counts the pairs it skips |
| `JsonString.ParseStringInto` | packages/cJSON-v1.7.17/cJSON.c:783-909 | For every text each write is inside the allocated size, also where the two passes disagree on escape boundaries; the result is the unescaped string |
| `JsonString.UnescapedFits` | packages/cJSON-v1.7.17/cJSON.c:820-827 | The unescaped string is never longer than the computed size |
| `JsonString.PairsSpacing` | packages/cJSON-v1.7.17/cJSON.c:800-814 | k characters hold at most half as many pair starts, rounded up |
| `JsonString.StepFits` | packages/cJSON-v1.7.17/cJSON.c:829-885 | No step writes more than it moves, less the pairs it moves over |
| `JsonString.Utf16ToUtf8` | packages/cJSON-v1.7.17/cJSON.c:662-780 | One \u escape or a surrogate pair is turned into its bytes |
| `JsonString.WriteUtf8` | packages/cJSON-v1.7.17/cJSON.c:728-774 | The loop from the last byte writes the UTF-8 of the code point |
| `JsonString.Utf8RoundTrip` | packages/cJSON-v1.7.17/cJSON.c:728-774 | Decoding as in section 3 of RFC 3629 gives the code point back |
| `JsonString.Hex4Exactly` | packages/cJSON-v1.7.17/cJSON.c:625-658 | Four hexadecimal digits are read as their value, anything else as 0 |
| `JsonString.LiteralIsWritten` | packages/cJSON-v1.7.17/cJSON.c:662-780 | The literal of a character (section 7 of RFC 8259) becomes the UTF-8 of that character |
| `JsonString.WrittenIsLiteral` | packages/cJSON-v1.7.17/cJSON.c:662-780 | Whatever is written is the UTF-8 of a character; its literal was read if and only if all digits are hexadecimal, and otherwise the character is NUL |
| `JsonSpelling.SpelledIsRead` | packages/cJSON-v1.7.17/cJSON.c:783-909 | Every spelling of a string by section 7 of RFC 8259, stated from the writer's side (each byte as itself, the eight two-character escapes, \u escapes and surrogate pairs in either hex case), is read as that string up to its first NUL, and reading stops behind the closing quotation mark |
| `JsonSpelling.SpellingUnique` | packages/cJSON-v1.7.17/cJSON.c:829-885 | A text spells one string only |
| `JsonSpelling.EscapeSpells` | packages/cJSON-v1.7.17/cJSON.c:982-1028 | What the printer writes between quotation marks is a spelling of the string |
| `JsonParser.ParseBuffer.SkipWhitespace` | packages/cJSON-v1.7.17/cJSON.c:1048-1071 | Skips blanks and steps back at the end of the buffer |
| `JsonParser.ParseBuffer.ParseNumber` | packages/cJSON-v1.7.17/cJSON.c:310-384 | At most 63 characters are copied and the used ones consumed |
| `JsonParser.ParseBuffer.ParseString` | packages/cJSON-v1.7.17/cJSON.c:783-909 | The string at the offset, as the specification reads it, or a refusal where it does |
| `JsonParser.ParseBuffer.ParseValue` | packages/cJSON-v1.7.17/cJSON.c:1322-1374 | The offset-moving parser accepts exactly what the specification accepts, gives the same tree and ends at the same place |
| `JsonParser.ParseBuffer.ParseArray` | packages/cJSON-v1.7.17/cJSON.c:1451-1546 | The same for arrays, with the nesting depth restored |
| `JsonParser.ParseBuffer.ParseElements` | packages/cJSON-v1.7.17/cJSON.c:1484-1523 | The element loop |
| `JsonParser.ParseBuffer.ParseObject` | packages/cJSON-v1.7.17/cJSON.c:1611-1721 | The same for objects |
| `JsonParser.ParseBuffer.ParseMemberList` | packages/cJSON-v1.7.17/cJSON.c:1642-1699 | The member loop; the NUL at the end keeps every read in the buffer |
| `JsonParser.ParseWithOpts` | packages/cJSON-v1.7.17/cJSON.c:1089-1183 | The whole call: byte order mark, blanks, value, required end |
| `JsonPrinter.PrintBuffer.Ensure` | packages/cJSON-v1.7.17/cJSON.c:449-532 | Room is granted exactly when needed bytes and one more fit the limit; growing keeps the text |
| `JsonPrinter.PrintBuffer.UpdateOffset` | packages/cJSON-v1.7.17/cJSON.c:535-545 | Moves to the NUL |
| `JsonPrinter.PrintBuffer.CountEscapes` | packages/cJSON-v1.7.17/cJSON.c:939-963 | The first loop counts exactly the characters escaping adds |
| `JsonPrinter.PrintBuffer.WriteEscaped` | packages/cJSON-v1.7.17/cJSON.c:982-1028 | The second loop fills exactly the room counted |
| `JsonPrinter.PrintBuffer.PrintString` | packages/cJSON-v1.7.17/cJSON.c:912-1031 | The quoted, escaped string with its NUL, or a refusal for lack of room |
| `JsonPrinter.PrintBuffer.PrintValue` | packages/cJSON-v1.7.17/cJSON.c:1377-1448 | Succeeds exactly for printable values that fit; then the buffer holds the text and its NUL |
| `JsonPrinter.PrintBuffer.PrintArray` | packages/cJSON-v1.7.17/cJSON.c:1549-1608 | The same for arrays |
| `JsonPrinter.PrintBuffer.PrintObject` | packages/cJSON-v1.7.17/cJSON.c:1724-1835 | The same for objects |
| `JsonPrinter.PrintPreallocated` | packages/cJSON-v1.7.17/cJSON.c:1302-1319 | Succeeds if and only if the length is at least the text length plus 2; nothing at or behind the length is written |
| `JsonPrinter.PrintText` | packages/cJSON-v1.7.17/cJSON.c:1197-1260 | Printing into a growing buffer gives the text |

## Left out

- OtaEngine.Engine.constructor: both partitions exist and are at least a slot long.
- OtaEngine.Engine.ServiceInit: the partition checks and the early return after a failed one are left out for the same reason.
- OtaEngine.Engine.Begin: the source name of a transfer, used for logging only, is not stored.
- OtaEngine.Engine.Write: data pointers are never null; an empty write stands for the argument error.
- BootImage.SignatureVerify: the ECDSA arithmetic is one abstract predicate.
- MkImage.BuiltHeader: reading files, keys and command lines; the image file is a sequence of bytes.
- WifiServer.Server.HandleClient: sockets are a sequence of bytes that may end anywhere and a send that may fail; the listener and its timeouts are left out.
- WifiClient.Client.Request: a host call that raises is a result `false`; partial sends are reliable.
- HttpDownload.Download: connecting, HTTP headers and allocation are reduced to a status, a content length and a sequence of reads; a callback that fails with a number that is no result code is not distinguished from one that is.
- RemoteController.AtMostOneUpdate: message texts, publishing, the rollout delay and the broker address; a run's outcome is chosen at will.
- Sha256.DigestChunks: the 64-bit length wraps at 2^64 bits as in the code; the digest is that of the standard below 2^61 bytes.
- JsonPatch.ApplyPatches: trees are values with the hidden pointer of every object, so what an operation shares with the patch document is not captured; a move whose source is no string, undefined in the code, fails with status 5.
- JsonPatchDocument.DocumentApplied: documents without test operations; a test changes no value, but what it leaves may take no further member (`JsonPatchMeaning.ApplyTest`, `JsonPatchMeaning.TestThenAdd`).
- JsonPatchMeaning.AddsMemberExactly: an append through a pointer to a node that has left the list, as a detached first node keeps it, changes that node and not the list; what else it overwrites is not modelled.
- JsonMergePatch.GenerateRefines: comparing two members sorts them before the walk goes down; sorting again changes nothing but the order of names equal up to case, which are excluded.
- JsonDiff.Generate: generating sorts both objects in place; here the arguments are unchanged, and the round trip is stated for a copy taken before, or any other tree of that value whose hidden pointers are in order.
- JsonMergePatch.ApplyMergePatch: deleting and duplicating nodes are not visible on values; allocation does not fail.
- JsonList.List.Append: items are detached and not yet in the list, as the library's callers must ensure; a head's prev outside the list is left out.
- JsonRoundTrip.PrintParseFixed: numbers are 32-bit integers; the double the code keeps for any other number is left out.
- JsonText.ParseNumber: the conversion of number texts is a parameter; what it makes of fractions, exponents and locales is left out, and that it reads 32-bit integers exactly is asked where printing is undone.
- JsonGrammar.WrittenIsRead: the grammar takes any control character for a blank or for itself in a string, as the parser does; that the parser accepts more still (`\u` with digits that are not hexadecimal, any numeral the conversion takes) is not part of it.
- JsonParser.ParseWithOpts: the buffer is a C string with its NUL; parsing a buffer without one, and the error position, are left out.
- JsonPrinter.PrintText: reallocation never fails; raw values, references, doubles and missing strings are left out.
- Functions of the JSON library for finding pointers, duplicating, minifying and adding typed members to objects: they would only add easy members.
- Drivers, display, real-time kernel, MQTT message parsing, key generation and the bootloader.
