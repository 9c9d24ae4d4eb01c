/** Every run: any callers, any order of calls, any faults, power cut at any point, any number of times. */
module OtaRuns {
  import opened Words
  import opened BootImage
  import opened Flash
  import opened OtaSlot
  import opened OtaEngine

  /**
   * What the callers do. A commanded reset is two steps: the check that the engine is READY, and, after a delay in which
   * the engine is not locked, the reset itself, which may strike in the middle of a call of another thread.
   */
  datatype Call =
    | Begin(size: nat, crc: nat)
    | Write(offset: nat, data: seq<byte>)
    | Finish
    | Abort
    | RequestReboot
    | Reset(request: nat, downloadPoint: nat, upgradePoint: nat)
    | PowerCut(downloadPoint: nat, upgradePoint: nat)

  /** What a step comes to. A boot shows what it meets in the upgrade slot and in the download slot. */
  datatype Event =
    | Nothing | Asked | Finished(result: Status)
    | Booted(commanded: bool, upgrade: seq<byte>, download: seq<byte>)

  /** Where the requests that wait were made. */
  function Asks(trace: seq<Event>): (asks: seq<nat>)
    ensures forall i :: 0 <= i < |asks| ==> asks[i] < |trace|
  {
    if trace == [] then []
    else
      var before := Asks(trace[..|trace| - 1]);
      match trace[|trace| - 1]
      case Asked => before + [|trace| - 1]
      case Booted(_, _, _) => []
      case _ => before
  }

  /** No finish after a place has gone on to a commit: it then succeeds or meets a flash fault. */
  predicate Quiet(trace: seq<Event>, from: nat) {
    forall j :: from < j < |trace| && trace[j].Finished? ==> trace[j].result !in {Status.Ok, ErrFlash}
  }

  /** What the step may come to after the steps before it. */
  predicate Follows(call: Call, before: seq<Event>, event: Event) {
    match call
    case Finish => event.Finished?
    case RequestReboot => event.Asked? || event.Nothing?
    case PowerCut(_, _) => event.Booted? && !event.commanded
    case Reset(request, _, _) => if request < |Asks(before)| then event.Booted? && event.commanded else event.Nothing?
    case _ => event.Nothing?
  }

  /**
   * Any boot is safe; one commanded by a request since which all was quiet meets an accepted header. The download slot
   * is as the run found it, or its header, too, is accepted only before a payload that passed every check.
   */
  predicate BootOk(policy: Policy, downloaded: seq<byte>, call: Call, before: seq<Event>, event: Event) {
    event.Booted? ==>
      && BootSafe(policy, event.upgrade)
      && (event.download == downloaded || BootSafe(policy, event.download))
      && (call.Reset? && call.request < |Asks(before)| && Quiet(before, Asks(before)[call.request]) ==>
            HeaderValid(SlotHeader(event.upgrade)))
  }

  ghost predicate RunOk(policy: Policy, downloaded: seq<byte>, calls: seq<Call>, trace: seq<Event>) {
    && |trace| <= |calls|
    && forall k :: 0 <= k < |trace| ==>
        Follows(calls[k], trace[..k], trace[k]) && BootOk(policy, downloaded, calls[k], trace[..k], trace[k])
  }

  /**
   * The reboot requests waiting for their delay: each remembers how far the upgrade slot had been recorded when it was
   * made. It is quiet as long as no finish has gone on to a commit since.
   */
  ghost predicate Waiting(upgrade: Partition, waiting: seq<nat>, quiet: seq<bool>)
    reads upgrade, upgrade.data
  {
    && |waiting| == |quiet|
    && forall i :: 0 <= i < |waiting| ==>
        waiting[i] <= |upgrade.points| && (quiet[i] ==> Undisturbed(upgrade, waiting[i]))
  }

  ghost predicate Undisturbed(upgrade: Partition, marks: nat)
    reads upgrade, upgrade.data
  {
    && |upgrade.points| == marks && upgrade.data.Length >= SLOT_SIZE
    && HeaderValid(SlotHeader(upgrade.data[..]))
  }

  /** A power cut, or a reset, leaves any content the partition went through since a mark. */
  method Survivor(partition: Partition, marks: nat, point: nat) returns (contents: seq<byte>)
    requires partition.data.Length >= SLOT_SIZE
    ensures |contents| >= SLOT_SIZE
    ensures contents == partition.data[..] || contents in partition.points
    ensures marks >= |partition.points| ==> contents == partition.data[..]
    ensures marks <= point < |partition.points| && |partition.points[point]| >= SLOT_SIZE ==>
              contents == partition.points[point]
  {
    contents := partition.data[..];
    if marks <= point < |partition.points| && |partition.points[point]| >= SLOT_SIZE {
      contents := partition.points[point];
    }
  }

  predicate Works(call: Call) {
    call.Begin? || call.Write? || call.Finish? || call.Abort?
  }

  /** A call a transport makes: only a finish that goes on to a commit disturbs the requests that wait. */
  method Work(engine: Engine, ghost waiting: seq<nat>, ghost quiet: seq<bool>, call: Call)
    returns (event: Event, ghost calm: seq<bool>)
    requires engine.Valid() && Waiting(engine.upgrade, waiting, quiet) && Works(call)
    modifies engine, engine.header, engine.copyBuffer, engine.download`points, engine.download.data,
             engine.upgrade`points, engine.upgrade.data
    ensures engine.Valid() && Waiting(engine.upgrade, waiting, calm)
    ensures event.Finished? || event.Nothing?
    ensures event.Finished? <==> call.Finish?
    ensures calm == if call.Finish? && old(engine.Commits()) then Disturbed(|waiting|) else quiet
    ensures call.Finish? && old(engine.Commits()) ==> event.result in {Status.Ok, ErrFlash}
  {
    hide BootSafe, Delivered, HeaderValid, Verdict, Undisturbed, Engine.Valid;
    SlotsApart(engine);
    event, calm := Nothing, quiet;
    match call
    case Begin(size, crc) =>
      if size < TWO_TO_THE_32 && crc < TWO_TO_THE_32 {
        var _ := engine.Begin(size, crc);
      }
    case Write(offset, data) =>
      var _ := engine.Write(offset, data);
    case Finish =>
      if engine.Commits() {
        calm := Disturbed(|waiting|);
      }
      var result := engine.Finish();
      event := Finished(result);
      assert |old(engine.upgrade.points)| <= |engine.upgrade.points|;
    case Abort =>
      engine.Abort();
  }

  lemma SlotsApart(engine: Engine)
    requires engine.Valid()
    ensures engine.download != engine.upgrade && engine.download.data != engine.upgrade.data
    ensures engine.upgrade.data !in {engine.header, engine.copyBuffer}
  {
  }

  function Disturbed(n: nat): (r: seq<bool>)
    ensures |r| == n && forall i :: 0 <= i < n ==> !r[i]
  {
    seq(n, _ => false)
  }

  method Ask(engine: Engine, waiting: seq<nat>, ghost quiet: seq<bool>)
    returns (event: Event, still: seq<nat>, ghost calm: seq<bool>)
    requires engine.Valid() && Waiting(engine.upgrade, waiting, quiet)
    ensures Waiting(engine.upgrade, still, calm)
    ensures event == if engine.state == Ready then Asked else Nothing
    ensures calm == if event.Asked? then quiet + [true] else quiet
  {
    hide BootSafe, Delivered, HeaderValid, Verdict;
    event, still, calm := Nothing, waiting, quiet;
    var result := engine.RequestReboot();
    if result == Status.Ok {
      event, still, calm := Asked, waiting + [|engine.upgrade.points|], quiet + [true];
    }
  }

  /** What a step comes to, and which of the requests that wait are quiet after it. */
  ghost predicate StepOk(call: Call, commits: bool, ready: bool, quiet: seq<bool>, event: Event, calm: seq<bool>) {
    if Works(call) then
      && (if call.Finish? then event.Finished? else event.Nothing?)
      && calm == (if call.Finish? && commits then Disturbed(|quiet|) else quiet)
      && (call.Finish? && commits ==> event.result in {Status.Ok, ErrFlash})
    else if call.RequestReboot? then
      if ready then event.Asked? && calm == quiet + [true] else event.Nothing? && calm == quiet
    else if call.PowerCut? then event.Booted? && !event.commanded && calm == []
    else if call.request >= |quiet| then event.Nothing? && calm == quiet
    else
      && event.Booted? && event.commanded && calm == []
      && (quiet[call.request] ==> |event.upgrade| >= SLOT_SIZE && HeaderValid(SlotHeader(event.upgrade)))
  }

  /** One step by any caller. A reset or a power cut starts a new life of the engine over what the flash holds. */
  method Perform(engine: Engine, waiting: seq<nat>, ghost quiet: seq<bool>, call: Call)
    returns (event: Event, next: Engine, still: seq<nat>, ghost calm: seq<bool>)
    requires engine.Valid() && Waiting(engine.upgrade, waiting, quiet)
    modifies engine, engine.header, engine.copyBuffer, engine.download`points, engine.download.data,
             engine.upgrade`points, engine.upgrade.data
    ensures next.Valid() && next.policy == engine.policy && Waiting(next.upgrade, still, calm)
    ensures StepOk(call, old(engine.Commits()), old(engine.state) == Ready, quiet, event, calm)
    ensures event.Booted? ==> BootSafe(engine.policy, event.upgrade) && next.found == event.download
    ensures event.Booted? ==> event.download == engine.found || BootSafe(engine.policy, event.download)
    ensures !event.Booted? ==> next.found == engine.found
    ensures next == engine || (fresh(next) && fresh(next.header) && fresh(next.copyBuffer) && fresh(next.download)
                               && fresh(next.download.data) && fresh(next.upgrade) && fresh(next.upgrade.data))
  {
    hide HeaderValid, Delivered, Verdict, Engine.Valid, Engine.Commits, Undisturbed;
    event, next, still, calm := Nothing, engine, waiting, quiet;
    if Works(call) {
      event, calm := Work(engine, waiting, quiet, call);
    } else if call.RequestReboot? {
      event, still, calm := Ask(engine, waiting, quiet);
    } else if call.PowerCut? {
      event, next := Boots(engine, false, 0, call.downloadPoint, call.upgradePoint);
      still, calm := [], [];
    } else if call.request < |waiting| {
      event, next := Boots(engine, true, waiting[call.request], call.downloadPoint, call.upgradePoint);
      QuietBoot(engine.upgrade, waiting[call.request], quiet[call.request]);
      still, calm := [], [];
    }
  }

  lemma QuietBoot(upgrade: Partition, marks: nat, quiet: bool)
    requires quiet ==> Undisturbed(upgrade, marks)
    ensures quiet ==>
              marks >= |upgrade.points| && upgrade.data.Length >= SLOT_SIZE && HeaderValid(SlotHeader(upgrade.data[..]))
  {
  }

  /** The boot after a reset or a power cut, and the new life. */
  method Boots(engine: Engine, commanded: bool, marks: nat, d: nat, u: nat) returns (event: Event, next: Engine)
    requires engine.Valid()
    ensures next.Valid() && next.policy == engine.policy && event.Booted? && event.commanded == commanded
    ensures BootSafe(engine.policy, event.upgrade) && next.found == event.download
    ensures event.download == engine.found || BootSafe(engine.policy, event.download)
    ensures marks >= |engine.upgrade.points| ==> event.upgrade == engine.upgrade.data[..]
    ensures fresh(next) && fresh(next.header) && fresh(next.copyBuffer) && fresh(next.download)
    ensures fresh(next.download.data) && fresh(next.upgrade) && fresh(next.upgrade.data)
  {
    hide BootSafe, Delivered;
    var downloaded := Survivor(engine.download, 0, d);
    var installed := Survivor(engine.upgrade, marks, u);
    event := Booted(commanded, installed, downloaded);
    next := Restart(engine.policy, downloaded, installed);
  }

  method Restart(policy: Policy, downloaded: seq<byte>, installed: seq<byte>) returns (engine: Engine)
    requires |downloaded| >= SLOT_SIZE && BootSafe(policy, installed)
    ensures engine.Valid() && engine.policy == policy && engine.found == downloaded
    ensures fresh(engine) && fresh(engine.header) && fresh(engine.copyBuffer) && fresh(engine.download)
    ensures fresh(engine.download.data) && fresh(engine.upgrade) && fresh(engine.upgrade.data)
  {
    assert |installed| >= SLOT_SIZE;
    hide BootSafe;
    var download := new Partition(downloaded, false);
    var upgrade := new Partition(installed, false);
    engine := new Engine(download, upgrade, policy);
  }

  /** The requests that wait are those of the trace, and quiet if the trace is. */
  ghost predicate Tracks(trace: seq<Event>, quiet: seq<bool>) {
    && |Asks(trace)| == |quiet|
    && forall i :: 0 <= i < |quiet| ==> Quiet(trace, Asks(trace)[i]) ==> quiet[i]
  }

  lemma TracksOn(trace: seq<Event>, quiet: seq<bool>, event: Event, calm: seq<bool>)
    requires Tracks(trace, quiet)
    requires event.Booted? ==> calm == []
    requires event.Asked? ==> calm == quiet + [true]
    requires event.Nothing? ==> calm == quiet
    requires event.Finished? ==> |calm| == |quiet| && (event.result !in {Status.Ok, ErrFlash} ==> calm == quiet)
    ensures Tracks(trace + [event], calm)
  {
    var now := trace + [event];
    assert now[..|now| - 1] == trace;
    forall i | 0 <= i < |calm| && Quiet(now, Asks(now)[i])
      ensures calm[i]
    {
      if i < |quiet| && !event.Booted? {
        assert forall j :: 0 <= j < |trace| ==> now[j] == trace[j];
        assert Quiet(trace, Asks(trace)[i]);
        assert event.Finished? ==> now[|trace|].Finished?;
      }
    }
  }

  lemma RunOn(policy: Policy, downloaded: seq<byte>, calls: seq<Call>, trace: seq<Event>, quiet: seq<bool>,
              event: Event)
    requires RunOk(policy, downloaded, calls, trace) && |trace| < |calls| && Tracks(trace, quiet)
    requires Follows(calls[|trace|], trace, event)
    requires event.Booted? ==> BootSafe(policy, event.upgrade)
    requires event.Booted? ==> event.download == downloaded || BootSafe(policy, event.download)
    requires var call := calls[|trace|];
             event.Booted? && call.Reset? && call.request < |quiet| && quiet[call.request] ==>
               HeaderValid(SlotHeader(event.upgrade))
    ensures RunOk(policy, downloaded, calls, trace + [event])
  {
    hide HeaderValid, BootSafe, Follows, Quiet;
    var now := trace + [event];
    assert now[..|trace|] == trace;
    forall k | 0 <= k < |now|
      ensures Follows(calls[k], now[..k], now[k]) && BootOk(policy, downloaded, calls[k], now[..k], now[k])
    {
      assert k < |trace| ==> now[..k] == trace[..k];
    }
  }

  /**
   * Safety of every run. Whatever the callers do and wherever the power is cut, every boot meets an upgrade slot
   * whose header is rejected or stands before a payload that passed CRC, SHA-256 and signature; and a boot that
   * the engine commanded meets an accepted one, if no finish has gone on to a commit since the engine was asked. And
   * every boot finds the download slot as the run found it, or with a header that is rejected unless its payload passed
   * the same checks.
   */
  method Run(policy: Policy, downloaded: seq<byte>, installed: seq<byte>, calls: seq<Call>) returns (trace: seq<Event>)
    requires |downloaded| >= SLOT_SIZE && BootSafe(policy, installed)
    ensures |trace| == |calls| && RunOk(policy, downloaded, calls, trace)
  {
    hide BootSafe, RunOk, Engine.Valid, Quiet, HeaderValid, Tracks;
    var engine := Restart(policy, downloaded, installed);
    var waiting: seq<nat> := [];
    ghost var quiet: seq<bool> := [];
    trace := [];
    RunStarts(policy, downloaded, calls);
    while |trace| < |calls|
      invariant engine.Valid() && engine.policy == policy && Waiting(engine.upgrade, waiting, quiet)
      invariant engine.found == downloaded || BootSafe(policy, engine.found)
      invariant fresh(engine) && fresh(engine.header) && fresh(engine.copyBuffer) && fresh(engine.download)
      invariant fresh(engine.download.data) && fresh(engine.upgrade) && fresh(engine.upgrade.data)
      invariant |trace| <= |calls| && RunOk(policy, downloaded, calls, trace) && Tracks(trace, quiet)
    {
      ghost var before := quiet;
      var event;
      TrackedRequests(trace, quiet);
      event, engine, waiting, quiet := Perform(engine, waiting, quiet, calls[|trace|]);
      RunOn(policy, downloaded, calls, trace, before, event);
      TracksOn(trace, before, event, quiet);
      trace := trace + [event];
    }
  }

  lemma RunStarts(policy: Policy, downloaded: seq<byte>, calls: seq<Call>)
    ensures RunOk(policy, downloaded, calls, []) && Tracks([], [])
  {
  }

  lemma TrackedRequests(trace: seq<Event>, quiet: seq<bool>)
    requires Tracks(trace, quiet)
    ensures |Asks(trace)| == |quiet|
  {
  }

  /** A package the engine takes and accepts. */
  ghost predicate Welcome(policy: Policy, package: seq<byte>, crc: nat) {
    HEADER_SIZE <= |package| <= SLOT_SIZE && crc < TWO_TO_THE_32 && Verdict(policy, package, crc) == Ok
  }

  /** Begin, write, finish on a device without faults. */
  method InstallAnother(engine: Engine, package: seq<byte>, crc: nat)
    requires engine.Valid() && engine.state == Ready && engine.download.reliable && engine.upgrade.reliable
    requires Welcome(engine.policy, package, crc)
    modifies engine, engine.header, engine.copyBuffer, engine.download`points, engine.download.data,
             engine.upgrade`points, engine.upgrade.data
    ensures engine.Valid() && FirstBlank(engine.upgrade.points, |old(engine.upgrade.points)|)
  {
    hide Engine.Valid, BootSafe, Delivered, Verdict, FirstBlank;
    ReadyIsLocked(engine);
    SlotsApart(engine);
    var result := engine.Begin(|package|, crc);
    assert engine.state == Receiving && engine.stream == [];
    ReceivingIsStaged(engine);
    result := engine.Write(0, package);
    assert [] + package == package;
    ReceivingIsStaged(engine);
    result := engine.Finish();
  }

  lemma ReadyIsLocked(engine: Engine)
    requires engine.Valid() && engine.state == Ready
    ensures engine.locked
  {
  }

  lemma ReceivingIsStaged(engine: Engine)
    requires engine.Valid() && engine.state == Receiving
    ensures |engine.stream| == engine.receivedSize && engine.locked
  {
  }

  /**
   * The condition is needed: between the check and the reset another transport may begin, write and finish any package the
   * engine accepts, and the reset may strike while the slot's header is blank.
   */
  method ResetDuringCommit(engine: Engine, package: seq<byte>, crc: nat) returns (event: Event)
    requires engine.Valid() && engine.state == Ready && engine.download.reliable && engine.upgrade.reliable
    requires Welcome(engine.policy, package, crc)
    modifies engine, engine.header, engine.copyBuffer, engine.download`points, engine.download.data,
             engine.upgrade`points, engine.upgrade.data
    ensures event.Booted? && event.commanded && |event.upgrade| >= SLOT_SIZE && !HeaderValid(SlotHeader(event.upgrade))
  {
    hide Engine.Valid, BootSafe, Delivered, HeaderValid, Verdict, HeaderBlank;
    var asked := engine.RequestReboot();
    var marks := |engine.upgrade.points|;
    InstallAnother(engine, package, crc);
    SafePoints(engine);
    BlankHasLength(engine.upgrade.points[marks]);
    var installed := Survivor(engine.upgrade, marks, marks);
    event := Booted(true, installed, engine.download.data[..]);
  }

  lemma BlankHasLength(c: seq<byte>)
    requires HeaderBlank(c)
    ensures |c| >= SLOT_SIZE && !HeaderValid(SlotHeader(c))
  {
    hide HeaderValid;
    BlankRejected(SlotHeader(c));
  }

  lemma SafePoints(engine: Engine)
    requires engine.Valid()
    ensures engine.upgrade.data.Length >= SLOT_SIZE && BootSafe(engine.policy, engine.upgrade.data[..])
    ensures forall t :: t in engine.upgrade.points ==> BootSafe(engine.policy, t)
  {
    hide BootSafe;
  }
}
