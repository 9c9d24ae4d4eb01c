/** The HTTP transport: one download into the engine, aborted on every exit before the commit. */
module HttpDownload {
  import opened Words
  import opened BootImage
  import opened Flash
  import opened OtaSlot
  import opened OtaEngine
  import Sha256

  const PROGRESS_STEP: nat := 5

  // ----- the requested digest -----

  function HexNibble(c: char): int {
    if '0' <= c <= '9' then c as int - '0' as int
    else if 'a' <= c <= 'f' then c as int - 'a' as int + 10
    else if 'A' <= c <= 'F' then c as int - 'A' as int + 10
    else -1
  }

  predicate IsHex(text: string) {
    forall i :: 0 <= i < |text| ==> HexNibble(text[i]) >= 0
  }

  function HexByte(high: char, low: char): byte
    requires HexNibble(high) >= 0 && HexNibble(low) >= 0
  {
    (16 * HexNibble(high) + HexNibble(low)) as byte
  }

  /** The bytes a hexadecimal text denotes. */
  function HexBytes(text: string): (bytes: seq<byte>)
    requires |text| % 2 == 0 && IsHex(text)
    ensures |bytes| == |text| / 2
  {
    if text == [] then [] else HexBytes(text[..|text| - 2]) + [HexByte(text[|text| - 2], text[|text| - 1])]
  }

  method ParseSha256(text: string) returns (ok: bool, digest: seq<byte>)
    ensures ok <==> |text| == 2 * DIGEST_SIZE && IsHex(text)
    ensures ok ==> digest == HexBytes(text)
  {
    digest := [];
    if |text| != 2 * DIGEST_SIZE {
      return false, [];
    }
    for i := 0 to DIGEST_SIZE
      invariant IsHex(text[..2 * i])
      invariant digest == HexBytes(text[..2 * i])
    {
      var high, low := HexNibble(text[2 * i]), HexNibble(text[2 * i + 1]);
      if high < 0 || low < 0 {
        return false, [];
      }
      assert text[..2 * (i + 1)][..2 * i] == text[..2 * i];
      digest := digest + [HexByte(text[2 * i], text[2 * i + 1])];
    }
    assert text[..2 * DIGEST_SIZE] == text;
    ok := true;
  }

  function HexDigit(n: nat, upper: bool): char
    requires n < 16
  {
    if n < 10 then '0' + n as char else if upper then 'A' + (n - 10) as char else 'a' + (n - 10) as char
  }

  function Hex(bytes: seq<byte>, upper: bool): (text: string)
    ensures |text| == 2 * |bytes| && IsHex(text)
  {
    if bytes == [] then []
    else
      var b := bytes[|bytes| - 1] as nat;
      Hex(bytes[..|bytes| - 1], upper) + [HexDigit(b / 16, upper), HexDigit(b % 16, upper)]
  }

  lemma NibbleOfDigit(n: nat, upper: bool)
    requires n < 16
    ensures HexNibble(HexDigit(n, upper)) == n
  {
  }

  lemma ByteOfDigits(b: byte, upper: bool)
    ensures HexNibble(HexDigit(b as nat / 16, upper)) >= 0 && HexNibble(HexDigit(b as nat % 16, upper)) >= 0
    ensures HexByte(HexDigit(b as nat / 16, upper), HexDigit(b as nat % 16, upper)) == b
  {
    NibbleOfDigit(b as nat / 16, upper);
    NibbleOfDigit(b as nat % 16, upper);
    hide HexNibble, HexDigit;
  }

  /** A digest written in hexadecimal, in either case, is read back. */
  lemma {:induction false} HexRoundTrip(bytes: seq<byte>, upper: bool)
    ensures HexBytes(Hex(bytes, upper)) == bytes
  {
    if bytes != [] {
      hide HexByte, HexDigit, HexNibble;
      ByteOfDigits(bytes[|bytes| - 1], upper);
      var text := Hex(bytes, upper);
      HexRoundTrip(bytes[..|bytes| - 1], upper);
      assert text[..|text| - 2] == Hex(bytes[..|bytes| - 1], upper);
    }
  }

  // ----- the download -----

  datatype Request = Request(url: string, size: nat, crc: nat, sha256: string)

  predicate StartsWith(text: string, prefix: string) {
    |text| >= |prefix| && text[..|prefix|] == prefix
  }

  /** How far a download got: whether it opened the transfer, and whether the engine accepted the package. */
  datatype Progress = NotBegun | Begun | Finished

  // ----- the progress callback -----

  datatype Stage = StageDownload | StageVerify | StageCommit

  datatype Report = Report(stage: Stage, received: nat, total: nat, percent: nat)

  type Failure = s: Status | s != Ok witness ErrCancelled

  /** The callback goes on with 0, cancels with a positive number and fails with a negative result code. */
  datatype Answer = GoOn | Cancel | Fail(error: Failure)

  /** What the k-th call of the callback comes to; where there is none, nothing stops the download. */
  function Reply(answers: seq<Answer>, k: nat): Status {
    if k >= |answers| then Ok
    else
      match answers[k]
      case GoOn => Ok
      case Cancel => ErrCancelled
      case Fail(error) => error
  }

  predicate Granted(answers: seq<Answer>, calls: nat) {
    forall k :: 0 <= k < calls ==> Reply(answers, k) == Ok
  }

  /** The last of so many calls, and no other, was refused, with this result. */
  predicate Refused(answers: seq<Answer>, calls: nat, result: Status) {
    calls > 0 && Granted(answers, calls - 1) && result == Reply(answers, calls - 1) && result != Ok
  }

  lemma GrantedIsNotRefused(answers: seq<Answer>, calls: nat, more: nat, result: Status)
    requires calls <= more && Granted(answers, more)
    ensures !Refused(answers, calls, result)
  {
  }

  method Notify(answers: seq<Answer>, told: seq<Report>, report: Report) returns (result: Status, now: seq<Report>)
    ensures now == told + [report] && result == Reply(answers, |told|)
    ensures Granted(answers, |told|) ==>
              if result == Ok then Granted(answers, |now|)
              else Refused(answers, |now|, result) && !Granted(answers, |now|)
  {
    return Reply(answers, |told|), told + [report];
  }

  /** What is reported while the reads come in. */
  function Steps(body: seq<seq<byte>>, size: nat, received: nat, lastPercent: nat): (steps: seq<Report>)
    requires received <= size
    decreases body
  {
    if received == size || body == [] || body[0] == [] || |body[0]| > size - received then []
    else
      var now := received + |body[0]|;
      var percent := Percent(now, size);
      if percent == 100 || percent >= lastPercent + PROGRESS_STEP then
        [Report(StageDownload, now, size, percent)] + Steps(body[1..], size, now, percent)
      else
        Steps(body[1..], size, now, lastPercent)
  }

  /** The reports up to the one before the digest is checked. */
  function Reports(body: seq<seq<byte>>, size: nat): (reports: seq<Report>) {
    [Report(StageDownload, 0, size, 0)] + Steps(body, size, 0, 0) + [Report(StageVerify, size, size, 100)]
  }

  /** A report comes PROGRESS_STEP percent after the one before it, or at the end: 20 at most, however many reads. */
  lemma {:induction false} StepsAreFew(body: seq<seq<byte>>, size: nat, received: nat, lastPercent: nat)
    requires received <= size && lastPercent <= 100 && (lastPercent == 100 ==> received == size)
    ensures PROGRESS_STEP * |Steps(body, size, received, lastPercent)| + lastPercent < 100 + PROGRESS_STEP
    decreases body
  {
    hide Percent;
    if received < size && body != [] && body[0] != [] && |body[0]| <= size - received {
      var now := received + |body[0]|;
      PercentIsWhole(now, size);
      var percent := Percent(now, size);
      StepsAreFew(body[1..], size, now, if percent == 100 || percent >= lastPercent + PROGRESS_STEP then percent
                  else lastPercent);
    }
  }

  /** A body that comes to the size is reported whole, as the last of the steps. */
  lemma {:induction false} StepsEndWhole(body: seq<seq<byte>>, size: nat, received: nat, lastPercent: nat)
    requires received < size && Outcome(body, size, received) == Ok
    ensures var steps := Steps(body, size, received, lastPercent);
            steps != [] && steps[|steps| - 1] == Report(StageDownload, size, size, 100)
    decreases body
  {
    hide Percent;
    var now := received + |body[0]|;
    PercentIsWhole(now, size);
    var percent := Percent(now, size);
    if now < size {
      StepsEndWhole(body[1..], size, now, if percent == 100 || percent >= lastPercent + PROGRESS_STEP then percent
                    else lastPercent);
    }
  }

  lemma PercentIsWhole(received: nat, size: nat)
    requires received <= size && size > 0
    ensures Percent(received, size) == 100 <==> received == size
  {
    var p := received * 100 / size;
    DivisionRests(received * 100, size);
    hide Percent;
    if p < 100 {
      Scaled(p + 1, 100, size);
    } else if p > 100 {
      Scaled(101, p, size);
    }
  }

  lemma DivisionRests(a: nat, size: nat)
    requires size > 0
    ensures a / size * size <= a < (a / size + 1) * size
  {
  }

  /** What the reads come to once so much has been received: an empty or missing one is an error, so is one too long. */
  function Outcome(body: seq<seq<byte>>, size: nat, received: nat): Status
    requires received <= size
    decreases body
  {
    if received == size then Ok
    else if body == [] || body[0] == [] then ErrNetwork
    else if |body[0]| > size - received then ErrSize
    else Outcome(body[1..], size, received + |body[0]|)
  }

  /** The bytes of the reads until the size is reached. */
  function Taken(body: seq<seq<byte>>, size: nat, received: nat): (bytes: seq<byte>)
    requires received <= size
    ensures Outcome(body, size, received) == Ok ==> received + |bytes| == size
    decreases body
  {
    if received == size || body == [] || body[0] == [] || |body[0]| > size - received then []
    else body[0] + Taken(body[1..], size, received + |body[0]|)
  }

  /** What the request and the answer's head must be for a download to begin. */
  predicate Wanted(request: Request, status: int, contentLength: int) {
    && HEADER_SIZE <= request.size <= SLOT_SIZE
    && !StartsWith(request.url, "https://") && StartsWith(request.url, "http://")
    && |request.sha256| == 2 * DIGEST_SIZE && IsHex(request.sha256)
    && status == 200 && contentLength == request.size
  }

  /** The checks before the transfer is opened, with the digest asked for. */
  method CheckHead(request: Request, status: int, contentLength: int) returns (result: Status, expected: seq<byte>)
    ensures result == Ok <==> Wanted(request, status, contentLength)
    ensures result == Ok ==> HEADER_SIZE <= request.size <= SLOT_SIZE && |expected| == DIGEST_SIZE
    ensures result == Ok ==> forall package :: Accepted(package, request) <==> Sha256.Digest(package) == expected
  {
    hide HexNibble, StartsWith;
    expected := [];
    if request.size < HEADER_SIZE || request.size > SLOT_SIZE {
      return ErrArgument, [];
    }
    if StartsWith(request.url, "https://") {
      return ErrUnsupported, [];
    }
    if !StartsWith(request.url, "http://") {
      return ErrProtocol, [];
    }
    var ok;
    ok, expected := ParseSha256(request.sha256);
    if !ok {
      return ErrProtocol, [];
    }
    if status != 200 {
      return ErrNetwork, [];
    }
    if contentLength < 0 || contentLength != request.size {
      return ErrSize, [];
    }
    result := Ok;
  }

  /** What the engine is for the download to meet no obstacle but the package itself. */
  ghost predicate Obliging(engine: Engine)
    reads engine
  {
    engine.locked && engine.state != Receiving && engine.download.reliable && engine.upgrade.reliable
  }

  /**
   * The download loop. `body` is what the connection will deliver, read by read; an empty or missing read is an
   * error. `answers` is what the progress callback will answer, and `told` what it has been told. After its own begin
   * succeeded, every exit leaves the engine READY when the engine accepted the package, and IDLE otherwise; READY means
   * the streamed bytes are those of the requested size, CRC and SHA-256. An answer that refuses before that is the last
   * one and the result, and the upgrade slot is as it was. Without faults the download succeeds exactly for a complete
   * body with the requested digest that the engine accepts, all answers granted.
   */
  method Download(engine: Engine, request: Request, status: int, contentLength: int, body: seq<seq<byte>>,
                  answers: seq<Answer>)
    returns (result: Status, progress: Progress, told: seq<Report>)
    requires engine.Valid() && request.size < TWO_TO_THE_32 && request.crc < TWO_TO_THE_32
    modifies engine, engine.header, engine.copyBuffer, engine.download`points, engine.download.data,
             engine.upgrade`points, engine.upgrade.data
    ensures engine.Valid()
    ensures progress == NotBegun ==>
              result != Ok && (engine.state == old(engine.state) || engine.state in {Idle, Error})
    ensures progress == NotBegun ==> told == [] && unchanged(engine.upgrade) && unchanged(engine.upgrade.data)
    ensures progress == NotBegun && old(engine.state) == Receiving ==>
              engine.stream == old(engine.stream) && engine.state == Receiving
    ensures progress == Begun ==> result != Ok && engine.state == Idle
    ensures progress == Begun && engine.download.reliable ==> HeaderBlank(engine.download.data[..])
    ensures progress == Begun ==> told <= Reports(body, request.size)
    ensures progress == Begun ==> Granted(answers, |told|) || Refused(answers, |told|, result)
    ensures progress == Begun && Refused(answers, |told|, result) ==>
              unchanged(engine.upgrade) && unchanged(engine.upgrade.data)
    ensures Deserves(engine.policy, request, body, answers)
            || (unchanged(engine.upgrade) && unchanged(engine.upgrade.data))
    ensures progress == Finished ==> engine.state == Ready
    ensures progress == Finished ==>
              told == Reports(body, request.size) + [Report(StageCommit, request.size, request.size, 100)]
    ensures progress == Finished ==> Granted(answers, |told| - 1) && result == Reply(answers, |told| - 1)
    ensures progress == Finished ==> |engine.stream| == request.size && Accepted(engine.stream, request)
    ensures progress == Finished ==> Delivered(engine.policy, engine.stream, request.crc, engine.upgrade.data[..])
    ensures progress == Finished ==>
              Wanted(request, status, contentLength) && engine.stream == Taken(body, request.size, 0)
    ensures old(Obliging(engine)) && Wanted(request, status, contentLength) ==>
              (progress == Finished <==> Deserves(engine.policy, request, body, answers))
  {
    hide Verdict, Delivered, BootSafe, Wanted, Accepted, Outcome, Taken, Reports, Granted, Refused, HeaderBlank;
    hide Completes, Sha256.Digest;
    progress, told := NotBegun, [];
    var expected;
    result, expected := CheckHead(request, status, contentLength);
    if result != Ok {
      return;
    }
    DigestNamed(engine.policy, request, body, answers, expected);
    result := engine.Begin(request.size, request.crc);
    if result != Ok {
      return;
    }
    result, progress, told := Proceed(engine, request, expected, body, answers);
    if progress == Begun && Granted(answers, |Reports(body, request.size)|) {
      GrantedIsNotRefused(answers, |told|, |Reports(body, request.size)|, result);
    }
  }

  /** All that follows a successful begin; whatever went wrong before the finish, the transfer is aborted. */
  method Proceed(engine: Engine, request: Request, expected: seq<byte>, body: seq<seq<byte>>, answers: seq<Answer>)
    returns (result: Status, progress: Progress, told: seq<Report>)
    requires engine.Valid() && engine.locked && engine.state == Receiving && engine.stream == []
    requires engine.packageSize == request.size >= HEADER_SIZE && engine.expectedCrc == request.crc
             && |expected| == DIGEST_SIZE
    modifies engine, engine.header, engine.copyBuffer, engine.download`points, engine.download.data,
             engine.upgrade`points, engine.upgrade.data
    ensures engine.Valid() && progress in {Begun, Finished}
    ensures progress == Begun ==> result != Ok && engine.state == Idle
    ensures progress == Begun && engine.download.reliable ==> HeaderBlank(engine.download.data[..])
    ensures progress == Begun ==> told <= Reports(body, request.size)
    ensures progress == Begun ==> Granted(answers, |told|) || Refused(answers, |told|, result)
    ensures Completes(engine.policy, request, body, answers, expected)
            || (unchanged(engine.upgrade) && unchanged(engine.upgrade.data))
    ensures progress == Finished ==>
              engine.state == Ready && |engine.stream| == request.size && engine.expectedCrc == request.crc
    ensures progress == Finished ==>
              told == Reports(body, request.size) + [Report(StageCommit, request.size, request.size, 100)]
    ensures progress == Finished ==> Granted(answers, |told| - 1) && result == Reply(answers, |told| - 1)
    ensures progress == Finished ==>
              Sha256.Digest(engine.stream) == expected && engine.stream == Taken(body, request.size, 0)
    ensures engine.download.reliable && engine.upgrade.reliable ==>
              (progress == Finished <==> Completes(engine.policy, request, body, answers, expected))
  {
    hide Verdict, Delivered, BootSafe, Outcome, Taken, Reports, Granted, Refused, HeaderBlank;
    progress := Begun;
    result, told := Transfer(engine, request, expected, body, answers);
    if result == Ok {
      progress := Finished;
      result, told := Notify(answers, told, Report(StageCommit, request.size, request.size, 100));
    }
    if progress == Begun {
      engine.Abort();
    }
  }

  /** All goes well: every answer granted, the body complete, the digest as expected, the package accepted. */
  ghost predicate Completes(policy: Policy, request: Request, body: seq<seq<byte>>, answers: seq<Answer>,
                            expected: seq<byte>)
    requires request.size >= HEADER_SIZE
  {
    var package := Taken(body, request.size, 0);
    && Granted(answers, |Reports(body, request.size)|) && Outcome(body, request.size, 0) == Ok
    && Sha256.Digest(package) == expected && Verdict(policy, package, request.crc) == Ok
  }

  /** The package the request asked for. */
  predicate Accepted(package: seq<byte>, request: Request) {
    |request.sha256| == 2 * DIGEST_SIZE && IsHex(request.sha256) && Sha256.Digest(package) == HexBytes(request.sha256)
  }

  /** The same, of the digest the request names. */
  ghost predicate Deserves(policy: Policy, request: Request, body: seq<seq<byte>>, answers: seq<Answer>) {
    var package := Taken(body, request.size, 0);
    && Granted(answers, |Reports(body, request.size)|) && Outcome(body, request.size, 0) == Ok
    && Accepted(package, request) && |package| >= HEADER_SIZE && Verdict(policy, package, request.crc) == Ok
  }

  lemma DigestNamed(policy: Policy, request: Request, body: seq<seq<byte>>, answers: seq<Answer>, expected: seq<byte>)
    requires request.size >= HEADER_SIZE
    requires forall package :: Accepted(package, request) <==> Sha256.Digest(package) == expected
    ensures Completes(policy, request, body, answers, expected) <==> Deserves(policy, request, body, answers)
  {
    hide Accepted, Sha256.Digest, Verdict, Granted, Outcome, Taken, Reports;
    var package := Taken(body, request.size, 0);
    assert Accepted(package, request) <==> Sha256.Digest(package) == expected;
  }

  /** The engine is asked to finish only when every answer was granted; nothing else can change the upgrade slot. */
  method Transfer(engine: Engine, request: Request, expected: seq<byte>, body: seq<seq<byte>>, answers: seq<Answer>)
    returns (result: Status, told: seq<Report>)
    requires engine.Valid() && engine.locked && engine.state == Receiving && engine.stream == []
    requires engine.packageSize == request.size >= HEADER_SIZE && engine.expectedCrc == request.crc
             && |expected| == DIGEST_SIZE
    modifies engine, engine.header, engine.copyBuffer, engine.download`points, engine.download.data,
             engine.upgrade`points, engine.upgrade.data
    ensures engine.Valid() && engine.locked
    ensures told <= Reports(body, request.size)
    ensures Granted(answers, |told|) || Refused(answers, |told|, result)
    ensures Completes(engine.policy, request, body, answers, expected)
            || (unchanged(engine.upgrade) && unchanged(engine.upgrade.data))
    ensures result == Ok ==> told == Reports(body, request.size) && Granted(answers, |told|)
    ensures result == Ok ==>
              engine.state == Ready && |engine.stream| == request.size && engine.expectedCrc == request.crc
    ensures result == Ok ==> Sha256.Digest(engine.stream) == expected && engine.stream == Taken(body, request.size, 0)
    ensures engine.download.reliable && engine.upgrade.reliable ==>
              (result == Ok <==> Completes(engine.policy, request, body, answers, expected))
  {
    hide Engine.Valid, Verdict, Delivered, BootSafe, Sha256.Digest, Granted, Refused, Outcome, Taken, Reports;
    hide Installable, WholeSince, FirstBlank, HeaderBlank, Engine.Commits;
    Apart(engine);
    var actual;
    result, told, actual := Fetch(engine, request.size, body, answers);
    if result != Ok {
      return;
    }
    var equal := DigestEqual(actual, expected);
    if !equal {
      return ErrPackageSha256, told;
    }
    StagedSize(engine);
    CommitsAccepted(engine);
    result := engine.Finish();
  }

  lemma CommitsAccepted(engine: Engine)
    ensures engine.Commits() ==>
              |engine.stream| >= HEADER_SIZE && Verdict(engine.policy, engine.stream, engine.expectedCrc) == Ok
  {
    hide Verdict;
  }

  /** The reports and the reads before the digest is compared; the upgrade slot is not touched. */
  method Fetch(engine: Engine, size: nat, body: seq<seq<byte>>, answers: seq<Answer>)
    returns (result: Status, told: seq<Report>, digest: seq<byte>)
    requires engine.Valid() && engine.locked && engine.state == Receiving && engine.stream == []
             && engine.packageSize == size
    modifies engine, engine.header, engine.download`points, engine.download.data
    ensures engine.Valid() && engine.locked
    ensures told <= Reports(body, size)
    ensures Granted(answers, |told|) || (Refused(answers, |told|, result) && !Granted(answers, |told|))
    ensures result == Ok ==> told == Reports(body, size) && Granted(answers, |told|)
    ensures result == Ok ==> engine.state == Receiving && |engine.stream| == size == engine.packageSize
    ensures result == Ok ==> engine.expectedCrc == old(engine.expectedCrc)
    ensures result == Ok ==> Outcome(body, size, 0) == Ok && engine.stream == Taken(body, size, 0)
    ensures result == Ok ==> digest == Sha256.Digest(engine.stream) && |digest| == DIGEST_SIZE
    ensures engine.download.reliable ==>
              (result == Ok <==> Granted(answers, |Reports(body, size)|) && Outcome(body, size, 0) == Ok)
  {
    hide Engine.Valid, Verdict, Delivered, BootSafe, Sha256.Context.Holds, Sha256.Digest;
    hide Refused, Outcome, Taken, Steps;
    digest := [];
    result, told := Notify(answers, [], Report(StageDownload, 0, size, 0));
    if result != Ok {
      return;
    }
    var sha := new Sha256.Context();
    result, told := Receive(engine, size, sha, body, answers, told);
    if result != Ok {
      return;
    }
    result, told := Notify(answers, told, Report(StageVerify, size, size, 100));
    if result != Ok {
      return;
    }
    digest := sha.Finish(engine.stream);
  }

  /**
   * Reads until the announced size is reached; every short read is hashed and handed to the engine. A report that is
   * refused ends it.
   */
  method Receive(engine: Engine, size: nat, sha: Sha256.Context, body: seq<seq<byte>>, answers: seq<Answer>,
                 before: seq<Report>)
    returns (result: Status, told: seq<Report>)
    requires engine.Valid() && engine.locked && engine.state == Receiving && engine.stream == []
             && engine.packageSize == size
    requires sha.Holds([]) && Granted(answers, |before|)
    requires sha.buffer !in {engine.header, engine.copyBuffer, engine.download.data, engine.upgrade.data}
    requires {sha.state as object} !! {engine.header as object, engine.copyBuffer, engine.download.data,
             engine.upgrade.data}
    modifies engine, engine.header, engine.download`points, engine.download.data, sha, sha.state, sha.buffer
    ensures engine.Valid() && engine.locked
    ensures told <= before + Steps(body, size, 0, 0)
    ensures Granted(answers, |told|) || (Refused(answers, |told|, result) && !Granted(answers, |told|))
    ensures result == Ok ==> told == before + Steps(body, size, 0, 0) && Granted(answers, |told|)
    ensures result == Ok ==> engine.state == Receiving && |engine.stream| == size == engine.packageSize
    ensures result == Ok ==> engine.expectedCrc == old(engine.expectedCrc) && sha.Holds(engine.stream)
    ensures result == Ok ==> Outcome(body, size, 0) == Ok && engine.stream == Taken(body, size, 0)
    ensures engine.download.reliable && Granted(answers, |told|) ==> result == Outcome(body, size, 0)
  {
    hide Engine.Valid, Verdict, Delivered, BootSafe, Sha256.Context.Holds;
    hide Outcome, Taken, Percent, Steps, Granted, Refused;
    var received: nat, lastPercent: nat, turn: nat := 0, 0, 0;
    told := before;
    assert body[0..] == body && engine.stream + Taken(body, size, 0) == Taken(body, size, 0);
    while received < size
      invariant received <= size && lastPercent <= 100 && turn <= |body|
      invariant engine.Valid() && engine.locked && engine.state == Receiving && engine.packageSize == size
      invariant received == |engine.stream| && engine.expectedCrc == old(engine.expectedCrc)
      invariant sha.Holds(engine.stream)
      invariant Granted(answers, |told|)
      invariant told + Steps(body[turn..], size, received, lastPercent) == before + Steps(body, size, 0, 0)
      invariant Outcome(body, size, 0) == Outcome(body[turn..], size, received)
      invariant Taken(body, size, 0) == engine.stream + Taken(body[turn..], size, received)
    {
      var remaining := size - received;
      var bytes := if turn < |body| then body[turn] else [];
      OneRead(body, turn, size, received, engine.stream);
      if bytes == [] {
        return ErrNetwork, told;
      }
      if |bytes| > remaining {
        return ErrSize, told;
      }
      OneStep(body, turn, size, received, lastPercent, told);
      turn := turn + 1;
      result := TakeChunk(engine, sha, received, bytes);
      if result != Ok {
        return;
      }
      received := received + |bytes|;
      var percent := Percent(received, size);
      if percent == 100 || percent >= lastPercent + PROGRESS_STEP {
        lastPercent := percent;
        result, told := Notify(answers, told, Report(StageDownload, received, size, percent));
        if result != Ok {
          return;
        }
      }
    }
    AllRead(body[turn..], size, lastPercent);
    assert engine.stream + [] == engine.stream && told + [] == told;
    result := Ok;
  }

  /** What one read adds to the reports. */
  lemma OneStep(body: seq<seq<byte>>, turn: nat, size: nat, received: nat, lastPercent: nat, told: seq<Report>)
    requires turn < |body| && received < size && 0 < |body[turn]| <= size - received
    ensures var now := received + |body[turn]|;
            var percent := Percent(now, size);
            told + Steps(body[turn..], size, received, lastPercent)
            == if percent == 100 || percent >= lastPercent + PROGRESS_STEP then
                 (told + [Report(StageDownload, now, size, percent)]) + Steps(body[turn + 1..], size, now, percent)
               else
                 told + Steps(body[turn + 1..], size, now, lastPercent)
  {
    assert body[turn..][0] == body[turn] && body[turn..][1..] == body[turn + 1..];
    hide Percent;
    var now := received + |body[turn]|;
    var percent := Percent(now, size);
    JoinedReports(told, [Report(StageDownload, now, size, percent)], Steps(body[turn + 1..], size, now, percent));
  }

  lemma JoinedReports(a: seq<Report>, b: seq<Report>, c: seq<Report>)
    ensures a + (b + c) == (a + b) + c
  {
  }

  /** It fits the byte it is kept in. */
  function Percent(received: nat, size: nat): (p: nat)
    requires received <= size && size > 0
    ensures p <= 100
  {
    PercentFits(received, size);
    received * 100 / size
  }

  lemma PercentFits(received: nat, size: nat)
    requires received <= size && size > 0
    ensures received * 100 / size <= 100
  {
    var p := received * 100 / size;
    DivisionRests(received * 100, size);
    if p >= 101 {
      Scaled(101, p, size);
    }
  }

  lemma Scaled(a: nat, b: nat, size: nat)
    requires a <= b
    ensures a * size <= b * size
  {
  }

  lemma AllRead(body: seq<seq<byte>>, size: nat, lastPercent: nat)
    ensures Outcome(body, size, size) == Ok && Taken(body, size, size) == []
            && Steps(body, size, size, lastPercent) == []
  {
  }

  /** What one read adds, or what is wrong with it. */
  lemma OneRead(body: seq<seq<byte>>, turn: nat, size: nat, received: nat, stream: seq<byte>)
    requires turn <= |body| && received < size
    ensures var bytes := if turn < |body| then body[turn] else [];
            if bytes == [] then Outcome(body[turn..], size, received) == ErrNetwork
            else if |bytes| > size - received then Outcome(body[turn..], size, received) == ErrSize
            else
              && Outcome(body[turn..], size, received) == Outcome(body[turn + 1..], size, received + |bytes|)
              && stream + Taken(body[turn..], size, received)
                 == (stream + bytes) + Taken(body[turn + 1..], size, received + |bytes|)
  {
    if turn < |body| {
      assert body[turn..][0] == body[turn] && body[turn..][1..] == body[turn + 1..];
      var bytes := body[turn];
      if bytes != [] && |bytes| <= size - received {
        Joined(stream, bytes, Taken(body[turn + 1..], size, received + |bytes|));
      }
    }
  }

  lemma Joined(a: seq<byte>, b: seq<byte>, c: seq<byte>)
    ensures a + (b + c) == (a + b) + c
  {
  }

  lemma Apart(engine: Engine)
    requires engine.Valid()
    ensures engine.download != engine.upgrade && engine.download.data != engine.upgrade.data
    ensures engine.upgrade.data !in {engine.header, engine.copyBuffer}
  {
  }

  lemma StagedSize(engine: Engine)
    requires engine.Valid() && engine.state == Receiving
    ensures |engine.stream| == engine.receivedSize && engine.locked
  {
  }

  method TakeChunk(engine: Engine, sha: Sha256.Context, received: nat, bytes: seq<byte>) returns (result: Status)
    requires engine.Valid() && engine.state == Receiving && sha.Holds(engine.stream) && bytes != []
    requires sha.buffer !in {engine.header, engine.copyBuffer, engine.download.data, engine.upgrade.data}
    requires {sha.state as object} !! {engine.header as object, engine.copyBuffer, engine.download.data,
             engine.upgrade.data}
    modifies engine, engine.header, engine.download`points, engine.download.data, sha, sha.state, sha.buffer
    ensures engine.Valid() && engine.locked == old(engine.locked)
    ensures result == Ok ==> engine.state == Receiving && engine.stream == old(engine.stream) + bytes
    ensures result == Ok ==>
              engine.packageSize == old(engine.packageSize) && engine.expectedCrc == old(engine.expectedCrc)
    ensures result == Ok ==> sha.Holds(engine.stream)
    ensures engine.download.reliable && received == |old(engine.stream)|
            && |bytes| <= old(engine.packageSize) - received
            ==> result == Ok
  {
    hide Engine.Valid, Verdict, Delivered, BootSafe, Sha256.Context.Holds;
    StagedSize(engine);
    sha.Update(engine.stream, bytes);
    result := engine.Write(received, bytes);
  }
}
