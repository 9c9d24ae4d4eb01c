/** The remote-update controller thread against any number of UI threads, as a step relation over their shared state. */
module RemoteController {
  const HARDWARE_ID: nat := 0x48373433
  const CURRENT_VERSION: nat := 0x00010004
  const QUEUE_DEPTH: nat := 4

  /** A version response as parsed: what it answers, and the update it offers. */
  datatype Response = Response(requestId: string, deviceId: string, hardwareId: nat, available: bool, version: nat,
                               messageId: string, url: string, size: nat, crc: nat, sha256: string)

  datatype Command = Message(response: Response) | Check | Accept | Decline

  /** A UI thread inside the accept call: before it, flag claimed and command not sent, send refused and flag not cleared. */
  datatype Ui = Outside | Claimed | Refused

  /** The controller thread: receiving commands, or inside a run. */
  datatype Controller = Receiving | Starting | Approved | Downloading

  /** What the storage hook reports, if there is a hook and something is stored. */
  datatype Pending = NothingStored | Pending(version: nat, messageId: string)

  datatype Shared = Shared(
    ui: seq<Ui>,
    queue: seq<Command>,
    controller: Controller,
    online: bool,
    inProgress: bool,
    valid: bool,
    update: Response,
    lastRequest: string,
    pending: Pending,
    // the record: request ids ever issued, messages delivered, and the update fields every download was started with
    issued: set<string>,
    delivered: set<Response>,
    started: seq<Response>)

  const NO_RESPONSE := Response("", "", 0, false, 0, "", "", 0, 0, "")

  predicate Init(s: Shared) {
    && (forall i :: 0 <= i < |s.ui| ==> s.ui[i] == Outside)
    && s.queue == [] && s.controller == Receiving && !s.online && !s.inProgress && !s.valid
    && s.update == NO_RESPONSE && s.lastRequest == "" && s.issued == {} && s.delivered == {} && s.started == []
  }

  // ----- UI threads -----

  /** Under the lock: claim the flag, when there is a valid update and no run. */
  predicate Claim(s: Shared, t: Shared, i: nat) {
    i < |s.ui| && s.ui[i] == Outside && s.valid && !s.inProgress
    && t == s.(ui := s.ui[i := Claimed], inProgress := true)
  }

  /** Outside the lock: send the command; the queue may be full or refuse it. */
  predicate Send(s: Shared, t: Shared, i: nat) {
    i < |s.ui| && s.ui[i] == Claimed
    && (|| (|s.queue| < QUEUE_DEPTH && t == s.(ui := s.ui[i := Outside], queue := s.queue + [Accept]))
        || t == s.(ui := s.ui[i := Refused]))
  }

  predicate Unclaim(s: Shared, t: Shared, i: nat) {
    i < |s.ui| && s.ui[i] == Refused
    && t == s.(ui := s.ui[i := Outside], inProgress := false)
  }

  /** A UI thread asks for a check or declines; MQTT delivers a message. */
  predicate Enqueue(s: Shared, t: Shared, c: Command) {
    !c.Accept? && |s.queue| < QUEUE_DEPTH
    && t == s.(queue := s.queue + [c], delivered := s.delivered + if c.Message? then {c.response} else {})
  }

  // ----- the controller thread -----

  predicate IssueRequest(s: Shared, t: Shared, id: string) {
    t == s.(lastRequest := id, issued := s.issued + {id})
  }

  function Handle(s: Shared, device: string, r: Response): Shared {
    if r.requestId != s.lastRequest || r.deviceId != device || r.hardwareId != HARDWARE_ID then s
    else if !r.available || r.version <= CURRENT_VERSION then s.(valid := false)
    else if s.valid && s.update.messageId == r.messageId then s
    else s.(update := r, valid := true)
  }

  /** The guard of the branch that overwrites the update record. */
  predicate Overwrites(pending: Pending) {
    pending.Pending? && pending.version == CURRENT_VERSION && pending.messageId != ""
  }

  /**
   * Connecting reports an update completed across the reboot, overwriting the update record, and asks for a version. What
   * is stored is cleared if the report was published and there is a hook to clear it.
   */
  function Overwritten(s: Shared, cleared: bool): Shared {
    if Overwrites(s.pending) then
      s.(update := NO_RESPONSE.(messageId := s.pending.messageId, version := s.pending.version),
         pending := if cleared then NothingStored else s.pending)
    else s
  }

  predicate Connect(s: Shared, t: Shared, cleared: bool, id: string) {
    s.controller == Receiving && !s.online && IssueRequest(Overwritten(s, cleared).(online := true), t, id)
  }

  predicate Disconnect(s: Shared, t: Shared) {
    s.controller == Receiving && t == s.(online := false)
  }

  predicate Take(s: Shared, t: Shared, device: string, id: string) {
    s.controller == Receiving && s.online && s.queue != [] &&
    var rest := s.(queue := s.queue[1..]);
    match s.queue[0]
    case Message(r) => t == Handle(rest, device, r)
    case Check => IssueRequest(rest, t, id)
    case Accept => t == rest.(controller := Starting)
    case Decline => t == rest
  }

  /** The run returns at once when there is no valid update left; it does not clear the flag then. */
  predicate Start(s: Shared, t: Shared) {
    s.controller == Starting && t == s.(controller := if s.valid then Approved else Receiving)
  }

  /** After the rollout delay: the network is up and the download begins with the fields of the update, or it fails. */
  predicate Launch(s: Shared, t: Shared) {
    s.controller == Approved
    && (|| t == s.(controller := Downloading, started := s.started + [s.update])
        || t == s.(controller := Receiving, inProgress := false))
  }

  /** What is stored once a download succeeded: the update to be reported after the reboot. */
  function Saved(s: Shared): Pending {
    Pending(s.update.version, s.update.messageId)
  }

  /** The download ended; after a success the update is stored, if there is a hook to store it, which may fail. */
  predicate Conclude(s: Shared, t: Shared) {
    s.controller == Downloading && t.pending in {s.pending, Saved(s)}
    && (|| t == s.(controller := Receiving, valid := false, inProgress := false, pending := t.pending)
        || t == s.(controller := Receiving, inProgress := false, pending := t.pending))
  }

  datatype Step =
    | ClaimStep(i: nat) | SendStep(i: nat) | UnclaimStep(i: nat) | EnqueueStep(c: Command)
    | ConnectStep(id: string, cleared: bool) | DisconnectStep | TakeStep(id: string) | StartStep | LaunchStep | ConcludeStep

  predicate Next(device: string, s: Shared, step: Step, t: Shared) {
    match step
    case ClaimStep(i) => Claim(s, t, i)
    case SendStep(i) => Send(s, t, i)
    case UnclaimStep(i) => Unclaim(s, t, i)
    case EnqueueStep(c) => Enqueue(s, t, c)
    case ConnectStep(id, cleared) => Connect(s, t, cleared, id)
    case DisconnectStep => Disconnect(s, t)
    case TakeStep(id) => Take(s, t, device, id)
    case StartStep => Start(s, t)
    case LaunchStep => Launch(s, t)
    case ConcludeStep => Conclude(s, t)
  }

  ghost predicate Run(device: string, pending: Pending, states: seq<Shared>, steps: seq<Step>) {
    && |states| == |steps| + 1 && Init(states[0]) && states[0].pending == pending
    && forall k :: 0 <= k < |steps| ==> Next(device, states[k], steps[k], states[k + 1])
  }

  // ----- one token -----

  function Claims(ui: seq<Ui>): nat {
    if ui == [] then 0 else Claims(ui[..|ui| - 1]) + if ui[|ui| - 1] == Outside then 0 else 1
  }

  function Accepts(queue: seq<Command>): nat {
    if queue == [] then 0 else Accepts(queue[..|queue| - 1]) + if queue[|queue| - 1].Accept? then 1 else 0
  }

  /** Accept calls under way, accept commands queued, and runs whose flag is not yet cleared. */
  function Tokens(s: Shared): nat {
    Claims(s.ui) + Accepts(s.queue) + if s.controller == Receiving then 0 else 1
  }

  lemma {:induction false} ClaimsUpdate(ui: seq<Ui>, i: nat, u: Ui)
    requires i < |ui|
    ensures Claims(ui[i := u]) == Claims(ui) + (if u == Outside then 0 else 1) - (if ui[i] == Outside then 0 else 1)
  {
    var n := |ui| - 1;
    if i == n {
      assert ui[i := u][..n] == ui[..n];
    } else {
      ClaimsUpdate(ui[..n], i, u);
      assert ui[i := u][..n] == ui[..n][i := u];
    }
  }

  lemma {:induction false} AcceptsTail(queue: seq<Command>)
    requires queue != []
    ensures Accepts(queue) == (if queue[0].Accept? then 1 else 0) + Accepts(queue[1..])
  {
    var n := |queue| - 1;
    if n > 0 {
      AcceptsTail(queue[..n]);
      assert queue[..n][1..] == queue[1..][..n - 1];
    }
  }

  lemma AcceptsAppend(queue: seq<Command>, c: Command)
    ensures Accepts(queue + [c]) == Accepts(queue) + if c.Accept? then 1 else 0
  {
    assert (queue + [c])[..|queue|] == queue;
  }

  ghost predicate TokenInvariant(s: Shared) {
    Tokens(s) <= if s.inProgress then 1 else 0
  }

  lemma TokensSend(s: Shared, t: Shared, i: nat)
    requires Send(s, t, i)
    ensures Tokens(t) == Tokens(s) && t.inProgress == s.inProgress && t.valid == s.valid
  {
    ClaimsUpdate(s.ui, i, Outside);
    ClaimsUpdate(s.ui, i, Refused);
    AcceptsAppend(s.queue, Accept);
    hide Claims, Accepts;
  }

  lemma TokensTake(s: Shared, t: Shared, device: string, id: string)
    requires Take(s, t, device, id)
    ensures Tokens(t) == Tokens(s) && t.inProgress == s.inProgress
  {
    AcceptsTail(s.queue);
    hide Claims, Accepts;
  }

  lemma TokensStep(device: string, s: Shared, step: Step, t: Shared)
    requires Next(device, s, step, t) && TokenInvariant(s)
    ensures TokenInvariant(t)
  {
    match step
    case ClaimStep(i) => ClaimsUpdate(s.ui, i, Claimed);
    case SendStep(i) => TokensSend(s, t, i);
    case UnclaimStep(i) => ClaimsUpdate(s.ui, i, Outside);
    case EnqueueStep(c) => AcceptsAppend(s.queue, c);
    case TakeStep(id) => TokensTake(s, t, device, id);
    case _ =>
    hide Claims, Accepts, Take, Send;
  }

  lemma {:induction false} ClaimsNone(ui: seq<Ui>)
    requires forall i :: 0 <= i < |ui| ==> ui[i] == Outside
    ensures Claims(ui) == 0
  {
    if ui != [] {
      ClaimsNone(ui[..|ui| - 1]);
    }
  }

  /** In every run, accept commands queued plus a run not yet cleared never exceed one. */
  lemma {:induction false} AtMostOneUpdate(device: string, pending: Pending, states: seq<Shared>, steps: seq<Step>,
                                           k: nat)
    requires Run(device, pending, states, steps) && k < |states|
    ensures TokenInvariant(states[k])
    ensures Accepts(states[k].queue) + (if states[k].controller == Receiving then 0 else 1) <= 1
  {
    if k == 0 {
      ClaimsNone(states[0].ui);
    } else {
      AtMostOneUpdate(device, pending, states, steps, k - 1);
      assert Next(device, states[k - 1], steps[k - 1], states[k]);
      TokensStep(device, states[k - 1], steps[k - 1], states[k]);
    }
  }

  // ----- only updates that were asked for -----

  /** Delivered as a message, in answer to a request of this device, and newer than what runs. */
  predicate Genuine(device: string, issued: set<string>, delivered: set<Response>, r: Response) {
    r in delivered && r.requestId in issued && r.deviceId == device && r.hardwareId == HARDWARE_ID && r.available
      && r.version > CURRENT_VERSION
  }

  ghost predicate UpdateInvariant(device: string, s: Shared) {
    && (s.online ==> s.lastRequest in s.issued)
    && (forall c :: c in s.queue && c.Message? ==> c.response in s.delivered)
    && !Overwrites(s.pending)
    && (s.controller != Receiving ==> s.online)
    && (s.valid ==> Genuine(device, s.issued, s.delivered, s.update))
    && (s.controller in {Approved, Downloading} ==> s.valid)
    && StartedGenuine(device, s)
  }

  lemma UpdateTake(device: string, s: Shared, t: Shared, id: string)
    requires Take(s, t, device, id) && UpdateInvariant(device, s)
    ensures UpdateInvariant(device, t)
  {
    assert s.issued <= t.issued;
  }

  /** The steps of a run. */
  lemma UpdateRun(device: string, s: Shared, t: Shared)
    requires (Start(s, t) || Launch(s, t) || Conclude(s, t)) && UpdateInvariant(device, s)
    ensures UpdateInvariant(device, t)
  {
    assert s.issued <= t.issued;
    if s.controller == Downloading && s.valid {
      assert !Overwrites(Saved(s));
    }
  }

  /** The steps of the UI threads, of the queue and of the connection. */
  lemma UpdateOutside(device: string, s: Shared, step: Step, t: Shared)
    requires !(step.TakeStep? || step.StartStep? || step.LaunchStep? || step.ConcludeStep?)
    requires Next(device, s, step, t) && UpdateInvariant(device, s)
    ensures UpdateInvariant(device, t)
  {
    assert s.issued <= t.issued;
    hide Take, Start, Launch, Conclude;
  }

  lemma UpdateStep(device: string, s: Shared, step: Step, t: Shared)
    requires Next(device, s, step, t) && UpdateInvariant(device, s)
    ensures UpdateInvariant(device, t)
  {
    hide Take, Start, Launch, Conclude, UpdateInvariant, Claim, Send, Unclaim, Enqueue, Connect, Disconnect;
    if step.TakeStep? {
      UpdateTake(device, s, t, step.id);
    } else if step.StartStep? || step.LaunchStep? || step.ConcludeStep? {
      UpdateRun(device, s, t);
    } else {
      UpdateOutside(device, s, step, t);
    }
  }

  lemma {:induction false} RunKeepsUpdate(device: string, pending: Pending, states: seq<Shared>, steps: seq<Step>,
                                          k: nat)
    requires Run(device, pending, states, steps) && k < |states| && !Overwrites(pending)
    ensures UpdateInvariant(device, states[k])
  {
    if k != 0 {
      RunKeepsUpdate(device, pending, states, steps, k - 1);
      assert Next(device, states[k - 1], steps[k - 1], states[k]);
      UpdateStep(device, states[k - 1], steps[k - 1], states[k]);
    }
  }

  ghost predicate StartedGenuine(device: string, s: Shared) {
    forall r :: r in s.started ==> Genuine(device, s.issued, s.delivered, r)
  }

  /** Every download of every run was started with the fields of a matching, newer response. */
  ghost predicate AlwaysGenuine(device: string, pending: Pending) {
    forall states: seq<Shared>, steps: seq<Step>, k: nat | Run(device, pending, states, steps) && k < |states| ::
      StartedGenuine(device, states[k])
  }

  /** That holds exactly when the storage hook does not report the running version as a pending update. */
  lemma GenuineExactly(device: string, pending: Pending)
    ensures AlwaysGenuine(device, pending) <==> !Overwrites(pending)
  {
    if !Overwrites(pending) {
      forall states: seq<Shared>, steps: seq<Step>, k: nat | Run(device, pending, states, steps) && k < |states|
        ensures StartedGenuine(device, states[k])
      {
        RunKeepsUpdate(device, pending, states, steps, k);
      }
    } else {
      var states, steps := OverwrittenRun(device, pending);
      assert Run(device, pending, states, steps);
      var lost := Overwritten(Fresh(pending), false).update;
      assert lost in states[10].started && !Genuine(device, states[10].issued, states[10].delivered, lost);
      assert !StartedGenuine(device, states[10]);
    }
  }

  function Offer(device: string, version: nat): Response {
    Response("1", device, HARDWARE_ID, true, version, "m", "http://host/fw", 8192, 0, "")
  }

  lemma Extend(device: string, pending: Pending, states: seq<Shared>, steps: seq<Step>, step: Step, t: Shared)
    returns (longer: seq<Shared>, more: seq<Step>)
    requires Run(device, pending, states, steps) && Next(device, states[|states| - 1], step, t)
    ensures longer == states + [t] && more == steps + [step] && Run(device, pending, longer, more)
  {
    longer, more := states + [t], steps + [step];
    hide Next;
  }

  function Fresh(pending: Pending): Shared {
    Shared([Outside], [], Receiving, false, false, false, NO_RESPONSE, "", pending, {}, {}, [])
  }

  /** From the start: connected, an offer on the table. */
  lemma OfferedRun(device: string, pending: Pending, r: Response) returns (states: seq<Shared>, steps: seq<Step>)
    requires Genuine(device, {"1"}, {r}, r)
    ensures Run(device, pending, states, steps) && |states| == 4 && states[0] == Fresh(pending)
    ensures states[3] == Fresh(pending).(online := true, update := r, valid := true, lastRequest := "1", issued := {"1"}, delivered := {r})
  {
    states, steps := [Fresh(pending)], [];
    var s1 := Overwritten(Fresh(pending), false).(online := true, lastRequest := "1", issued := {"1"});
    var s2 := s1.(queue := [Message(r)], delivered := {r});
    var s3 := s1.(update := r, valid := true, delivered := {r});
    assert s1.queue + [Message(r)] == s2.queue && s2.queue[1..] == [];
    assert Handle(s1.(delivered := {r}), device, r) == s3;
    states, steps := Extend(device, pending, states, steps, ConnectStep("1", false), s1);
    states, steps := Extend(device, pending, states, steps, EnqueueStep(Message(r)), s2);
    states, steps := Extend(device, pending, states, steps, TakeStep(""), s3);
  }

  /** A reconnect while an update is on offer replaces it. */
  lemma LostRun(device: string, pending: Pending) returns (states: seq<Shared>, steps: seq<Step>)
    requires Overwrites(pending)
    ensures Run(device, pending, states, steps) && |states| == 6
    ensures states[5] == Fresh(pending).(online := true, update := Overwritten(Fresh(pending), false).update,
            valid := true,
                                         lastRequest := "2", issued := {"1", "2"},
                                         delivered := {Offer(device, CURRENT_VERSION + 1)})
  {
    states, steps := OfferedRun(device, pending, Offer(device, CURRENT_VERSION + 1));
    var s4 := states[3].(online := false);
    var s5 := s4.(online := true, update := Overwritten(Fresh(pending), false).update, lastRequest := "2", issued := {"1"} + {"2"});
    states, steps := Extend(device, pending, states, steps, DisconnectStep, s4);
    states, steps := Extend(device, pending, states, steps, ConnectStep("2", false), s5);
  }

  /** The accepted download then has no URL. */
  lemma OverwrittenRun(device: string, pending: Pending) returns (states: seq<Shared>, steps: seq<Step>)
    requires Overwrites(pending)
    ensures Run(device, pending, states, steps) && |states| == 11
    ensures states[10].started == [Overwritten(Fresh(pending), false).update]
  {
    var lost := Overwritten(Fresh(pending), false).update;
    states, steps := LostRun(device, pending);
    hide Overwrites, Overwritten;
    var s6 := states[5].(ui := [Claimed], inProgress := true);
    var s7 := s6.(ui := [Outside], queue := [Accept]);
    var s8 := s7.(queue := [], controller := Starting);
    var s9 := s8.(controller := Approved);
    var s10 := s9.(controller := Downloading, started := [lost]);
    assert s6.queue + [Accept] == s7.queue && s7.queue[1..] == [] && s9.started + [lost] == s10.started;
    states, steps := Extend(device, pending, states, steps, ClaimStep(0), s6);
    states, steps := Extend(device, pending, states, steps, SendStep(0), s7);
    states, steps := Extend(device, pending, states, steps, TakeStep(""), s8);
    states, steps := Extend(device, pending, states, steps, StartStep, s9);
    states, steps := Extend(device, pending, states, steps, LaunchStep, s10);
  }

  // ----- a flag that is never cleared -----

  /** The flag is set and nothing is left that would clear it. */
  predicate Wedged(s: Shared) {
    s.inProgress && Tokens(s) == 0
  }

  lemma NoClaims(ui: seq<Ui>, i: nat)
    requires i < |ui| && Claims(ui) == 0
    ensures ui[i] == Outside
  {
    ClaimsUpdate(ui, i, Outside);
  }

  lemma NoAccepts(queue: seq<Command>)
    requires queue != [] && Accepts(queue) == 0
    ensures !queue[0].Accept?
  {
    AcceptsTail(queue);
  }

  /** Once wedged, for ever wedged: no step of any thread clears the flag or starts a run. */
  lemma WedgedForEver(device: string, s: Shared, step: Step, t: Shared)
    requires Next(device, s, step, t) && Wedged(s)
    ensures Wedged(t) && t.started == s.started
  {
    match step
    case SendStep(i) => NoClaims(s.ui, i);
    case UnclaimStep(i) => NoClaims(s.ui, i);
    case EnqueueStep(c) => AcceptsAppend(s.queue, c);
    case TakeStep(id) =>
      NoAccepts(s.queue);
      TokensTake(s, t, device, id);
    case _ =>
    hide Claims, Accepts;
  }

  /** The controller wedges itself exactly when a run starts after the update it was accepted for was withdrawn. */
  lemma WedgesExactly(device: string, s: Shared, step: Step, t: Shared)
    requires Next(device, s, step, t) && TokenInvariant(s) && !Wedged(s)
    ensures Wedged(t) <==> step.StartStep? && !s.valid
  {
    TokensStep(device, s, step, t);
    match step
    case ClaimStep(i) => ClaimsUpdate(s.ui, i, Claimed);
    case SendStep(i) => TokensSend(s, t, i);
    case UnclaimStep(i) =>
    case EnqueueStep(c) => AcceptsAppend(s.queue, c);
    case TakeStep(id) => TokensTake(s, t, device, id);
    case StartStep =>
    case _ =>
    hide Claims, Accepts, Take, Send;
  }

  function Withdrawn(device: string): Command {
    Message(Offer(device, CURRENT_VERSION + 1).(available := false))
  }

  /** The offer is withdrawn by a message queued ahead of the accept command. */
  lemma WithdrawnRun(device: string, pending: Pending) returns (states: seq<Shared>, steps: seq<Step>)
    ensures Run(device, pending, states, steps) && |states| == 7
    ensures var s := states[6];
            && s.ui == [Outside] && s.queue == [Withdrawn(device), Accept] && s.controller == Receiving
            && s.online && s.inProgress && s.lastRequest == "1"
  {
    states, steps := OfferedRun(device, pending, Offer(device, CURRENT_VERSION + 1));
    var withdrawn := Withdrawn(device);
    var s3 := states[3];
    var s4 := s3.(queue := [withdrawn], delivered := s3.delivered + {withdrawn.response});
    var s5 := s4.(ui := [Claimed], inProgress := true);
    var s6 := s5.(ui := [Outside], queue := [withdrawn, Accept]);
    assert s3.queue + [withdrawn] == s4.queue && s5.queue + [Accept] == s6.queue;
    states, steps := Extend(device, pending, states, steps, EnqueueStep(withdrawn), s4);
    states, steps := Extend(device, pending, states, steps, ClaimStep(0), s5);
    states, steps := Extend(device, pending, states, steps, SendStep(0), s6);
  }

  /** It does happen: the run then starts without an update. */
  lemma WedgedRun(device: string, pending: Pending) returns (states: seq<Shared>, steps: seq<Step>)
    ensures Run(device, pending, states, steps) && |states| == 10 && Wedged(states[9])
  {
    states, steps := WithdrawnRun(device, pending);
    var s6 := states[6];
    var s7 := s6.(queue := [Accept], valid := false);
    var s8 := s7.(queue := [], controller := Starting);
    var s9 := s8.(controller := Receiving);
    assert s6.queue[1..] == s7.queue && s7.queue[1..] == [];
    states, steps := Extend(device, pending, states, steps, TakeStep(""), s7);
    states, steps := Extend(device, pending, states, steps, TakeStep(""), s8);
    states, steps := Extend(device, pending, states, steps, StartStep, s9);
    ClaimsNone(s9.ui);
  }
}
