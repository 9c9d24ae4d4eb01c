/** The device side of the upload protocol: one client at a time, one request after another. */
module WifiServer {
  import opened Words
  import opened BootImage
  import opened Flash
  import opened OtaSlot
  import opened OtaEngine
  import opened WifiProtocol

  /** What the request loop does after a request. */
  datatype Next = Continue | Break | Return | Reset

  /** What a session can observe of itself and of the engine. */
  datatype View = View(locked: bool, state: State, packageSize: nat, expectedCrc: nat, stream: seq<byte>,
                       receiving: bool, flags: nat)

  ghost predicate SizeFits(size: nat) {
    HEADER_SIZE <= size <= SLOT_SIZE
  }

  /** BEGIN: opens a transfer unless one is open; a refused one closes the session's own transfer flag. */
  ghost predicate BeginPerforms(reliable: bool, v: View, payload: seq<byte>, result: Status, w: View) {
    if |payload| != BEGIN_PAYLOAD_SIZE then result == ErrProtocol && w == v
    else
      var size, crc, flags := U32(payload[0..4]), U32(payload[4..8]), U32(payload[8..12]);
      && w.flags == flags && w.receiving == (result == Ok)
      && (result == Ok ==> w == View(true, Receiving, size, crc, [], true, flags))
      && (v.locked && !SizeFits(size) ==> result == ErrSize && w == v.(receiving := false, flags := flags))
      && (v.locked && SizeFits(size) && v.state == Receiving ==>
          result == ErrState && w == v.(receiving := false, flags := flags))
      && (v.locked && SizeFits(size) && v.state != Receiving && reliable ==> result == Ok)
  }

  /** DATA: appends at the offset already reached, or changes nothing. */
  ghost predicate DataPerforms(reliable: bool, v: View, offset: nat, payload: seq<byte>, result: Status, w: View) {
    if !v.receiving || payload == [] then result == ErrState && w == v
    else if v.state != Receiving || offset != |v.stream|
      || |payload| > v.packageSize - offset then result == ErrState && w == v
    else
      && (result == Ok ==> w == v.(stream := v.stream + payload))
      && (result == Ok || result == ErrFlash) && (reliable ==> result == Ok)
      && (result == ErrFlash ==> w.state == Error && w.receiving)
  }

  /** END: the engine's verdict on the whole package; refused before the package is complete. */
  ghost predicate EndPerforms(policy: Policy, reliable: bool, v: View, payload: seq<byte>, result: Status, w: View) {
    if !v.receiving || payload != [] then result == ErrState && w == v
    else if v.state != Receiving || |v.stream| != v.packageSize || |v.stream| < HEADER_SIZE then
      result == ErrState && w == v.(receiving := false)
    else
      && !w.receiving && w.stream == v.stream && w.expectedCrc == v.expectedCrc && w.flags == v.flags
      && w.state == (if result == Ok then Ready else Error)
      && (result == Verdict(policy, v.stream, v.expectedCrc) || (result == ErrFlash && !reliable))
  }

  ghost predicate OtherPerforms(v: View, kind: nat, payload: seq<byte>, result: Status, w: View) {
    if kind == MSG_ABORT && payload == [] then
      result == Ok && !w.receiving && (if v.locked then w.state == Idle else w == v.(receiving := false))
    else if kind == MSG_REBOOT && payload == [] then
      w == v && result == if v.state == Ready then Ok else ErrState
    else
      result == ErrProtocol && w == v
  }

  ghost predicate Performs(policy: Policy, reliable: bool, v: View, kind: nat, offset: nat, payload: seq<byte>,
                           result: Status, w: View)
  {
    if kind == MSG_BEGIN then BeginPerforms(reliable, v, payload, result, w)
    else if kind == MSG_DATA then DataPerforms(reliable, v, offset, payload, result, w)
    else if kind == MSG_END then EndPerforms(policy, reliable, v, payload, result, w)
    else OtherPerforms(v, kind, payload, result, w)
  }

  /** What one turn of the request loop does with the bytes still to be received, and what it answers or tries to. */
  datatype Turn = Turn(before: View, consumed: nat, response: seq<byte>, next: Next, result: Status, after: View)

  ghost predicate QueryAnswered(kind: nat, sequence: nat, payload: seq<byte>, response: seq<byte>)
    requires kind < TWO_TO_THE_16 && sequence < TWO_TO_THE_32
  {
    if payload == [] then
      exists status: seq<byte> :: |status| == STATUS_PAYLOAD_SIZE && response == Response(kind, sequence, Ok, status)
    else
      response == Response(kind, sequence, ErrProtocol, [])
  }

  ghost predicate TurnOk(policy: Policy, reliable: bool, lossless: bool, incoming: seq<byte>, t: Turn) {
    match Parse(incoming)
    case Short => t.next == Break && t.response == [] && t.after == t.before
    case Malformed(kind, sequence) =>
      t.next == Break && t.response == Response(kind, sequence, ErrProtocol, []) && t.after == t.before
    case Rejected(kind, sequence, error, end) =>
      t.next == Continue && t.consumed == end && t.response == Response(kind, sequence, error, [])
        && t.after == t.before
    case Good(kind, sequence, offset, payload, end) =>
      && t.consumed == end && (lossless ==> t.next in {Continue, Reset})
      && if kind == MSG_QUERY then
           && t.after == t.before && QueryAnswered(kind, sequence, payload, t.response)
           && t.next in {Continue, if payload == [] then Return else Break}
         else
           && Performs(policy, reliable, t.before, kind, offset, payload, t.result, t.after)
           && t.response == Response(kind, sequence, t.result, [])
           && t.next in {Continue, Break, Reset}
           && (t.next != Break ==>
                 (t.next == Reset
                  <==> t.result == Ok && (kind == MSG_REBOOT || (kind == MSG_END && t.after.flags % 2 == 1))))
  }

  /** A turn over a QUERY. */
  lemma QueryTurn(policy: Policy, reliable: bool, lossless: bool, incoming: seq<byte>, t: Turn, status: seq<byte>)
    requires |status| == STATUS_PAYLOAD_SIZE
    requires var p := Parse(incoming);
             && p.Good? && p.kind == MSG_QUERY && t.consumed == p.consumed && t.after == t.before
             && t.response == (if p.payload == [] then Response(p.kind, p.sequence, Ok, status)
                               else Response(p.kind, p.sequence, ErrProtocol, []))
             && t.next in {Continue, if p.payload == [] then Return else Break} && (lossless ==> t.next == Continue)
    ensures TurnOk(policy, reliable, lossless, incoming, t)
  {
    hide Response;
  }

  /** A turn over any other request. */
  lemma RequestTurn(policy: Policy, reliable: bool, lossless: bool, incoming: seq<byte>, t: Turn, reboot: bool,
                    sent: bool)
    requires var p := Parse(incoming);
             && p.Good? && p.kind != MSG_QUERY && t.consumed == p.consumed
             && Performs(policy, reliable, t.before, p.kind, p.offset, p.payload, t.result, t.after)
             && t.response == Response(p.kind, p.sequence, t.result, [])
             && (reboot <==> t.result == Ok && (p.kind == MSG_REBOOT || (p.kind == MSG_END && t.after.flags % 2 == 1)))
    requires t.next == (if !sent then Break else if reboot then Reset else Continue) && (lossless ==> sent)
    ensures TurnOk(policy, reliable, lossless, incoming, t)
  {
    hide Response, Performs, Parse;
  }

  /** A turn over what is no request. */
  lemma RefusedTurn(policy: Policy, reliable: bool, lossless: bool, incoming: seq<byte>, t: Turn)
    requires t.after == t.before
    requires match Parse(incoming)
             case Short => t.next == Break && t.response == []
             case Malformed(kind, sequence) => t.next == Break
               && t.response == Response(kind, sequence, ErrProtocol, [])
             case Rejected(kind, sequence, error, end) =>
               t.next == Continue && t.consumed == end && t.response == Response(kind, sequence, error, [])
             case Good(_, _, _, _, _) => false
    ensures TurnOk(policy, reliable, lossless, incoming, t)
  {
    hide Response, Parse;
  }

  /** How far the turns have read. */
  function Read(turns: seq<Turn>): nat {
    if turns == [] then 0 else Read(turns[..|turns| - 1]) + turns[|turns| - 1].consumed
  }

  /** What the turns have answered. */
  function Answers(turns: seq<Turn>): seq<byte> {
    if turns == [] then [] else Answers(turns[..|turns| - 1]) + turns[|turns| - 1].response
  }

  /** A turn goes on where those before it left off, if they did not end the loop. */
  ghost predicate Continues(policy: Policy, reliable: bool, lossless: bool, incoming: seq<byte>, done: seq<Turn>,
                            t: Turn) {
    && Read(done) <= |incoming| && TurnOk(policy, reliable, lossless, incoming[Read(done)..], t)
    && (done != [] ==> done[|done| - 1].next == Continue && t.before == done[|done| - 1].after)
  }

  ghost predicate SessionOk(policy: Policy, reliable: bool, lossless: bool, incoming: seq<byte>, turns: seq<Turn>) {
    forall k :: 0 <= k < |turns| ==> Continues(policy, reliable, lossless, incoming, turns[..k], turns[k])
  }

  lemma SessionOn(policy: Policy, reliable: bool, lossless: bool, incoming: seq<byte>, turns: seq<Turn>, t: Turn)
    requires SessionOk(policy, reliable, lossless, incoming, turns)
    requires Read(turns) <= |incoming| && TurnOk(policy, reliable, lossless, incoming[Read(turns)..], t)
    requires turns != [] ==> turns[|turns| - 1].next == Continue && t.before == turns[|turns| - 1].after
    ensures SessionOk(policy, reliable, lossless, incoming, turns + [t])
    ensures Read(turns + [t]) == Read(turns) + t.consumed && Answers(turns + [t]) == Answers(turns) + t.response
  {
    hide TurnOk;
    var all := turns + [t];
    assert all[..|turns|] == turns;
    assert Continues(policy, reliable, lossless, incoming, turns, t);
    hide Continues;
    forall k | 0 <= k < |all|
      ensures Continues(policy, reliable, lossless, incoming, all[..k], all[k])
    {
      assert k < |turns| ==> all[..k] == turns[..k] && all[k] == turns[k];
    }
  }

  class Server {
    const engine: Engine
    /** The socket delivers every response. */
    const lossless: bool
    var receiving: bool
    var beginFlags: nat

    constructor (engine: Engine, lossless: bool)
      ensures this.engine == engine && this.lossless == lossless && !receiving
    {
      this.engine := engine;
      this.lossless := lossless;
      receiving := false;
      beginFlags := 0;
    }

    ghost function Look(): View
      reads this, engine
    {
      View(engine.locked, engine.state, engine.packageSize, engine.expectedCrc, engine.stream, receiving, beginFlags)
    }

    ghost predicate Reliable() {
      engine.download.reliable && engine.upgrade.reliable
    }

    method Send() returns (sent: bool)
      ensures lossless ==> sent
    {
      var fault := *;
      sent := !fault || lossless;
    }

    /** One request other than QUERY, carried out on the engine. */
    method Dispatch(kind: nat, offset: nat, payload: seq<byte>) returns (result: Status, reboot: bool)
      requires engine.Valid()
      modifies this, engine, engine.header, engine.copyBuffer, engine.download`points, engine.download.data,
               engine.upgrade`points, engine.upgrade.data
      ensures engine.Valid()
      ensures Performs(engine.policy, Reliable(), old(Look()), kind, offset, payload, result, Look())
      ensures reboot ==> result == Ok && engine.state == Ready
      ensures reboot <==> result == Ok && (kind == MSG_REBOOT || (kind == MSG_END && beginFlags % 2 == 1))
    {
      hide Verdict, Delivered, BootSafe;
      reboot := false;
      if kind == MSG_BEGIN {
        result := DispatchBegin(payload);
      } else if kind == MSG_DATA {
        result := DispatchData(offset, payload);
      } else if kind == MSG_END {
        result := DispatchEnd(payload);
        reboot := result == Ok && beginFlags % 2 == 1;
      } else if kind == MSG_ABORT {
        if payload != [] {
          return ErrProtocol, false;
        }
        engine.Abort();
        receiving := false;
        result := Ok;
      } else if kind == MSG_REBOOT {
        if payload != [] {
          return ErrProtocol, false;
        }
        result := if engine.state == Ready then Ok else ErrState;
        reboot := result == Ok;
      } else {
        result := ErrProtocol;
      }
    }

    method DispatchBegin(payload: seq<byte>) returns (result: Status)
      requires engine.Valid()
      modifies this, engine, engine.header, engine.download`points, engine.download.data
      ensures engine.Valid()
      ensures BeginPerforms(Reliable(), old(Look()), payload, result, Look())
    {
      hide Verdict, Delivered, BootSafe;
      if |payload| != BEGIN_PAYLOAD_SIZE {
        return ErrProtocol;
      }
      beginFlags := U32(payload[8..12]);
      result := engine.Begin(U32(payload[0..4]), U32(payload[4..8]));
      receiving := result == Ok;
    }

    method DispatchData(offset: nat, payload: seq<byte>) returns (result: Status)
      requires engine.Valid()
      modifies engine, engine.header, engine.download`points, engine.download.data
      ensures engine.Valid()
      ensures DataPerforms(Reliable(), old(Look()), offset, payload, result, Look())
    {
      hide Verdict, Delivered, BootSafe;
      if !receiving || payload == [] {
        return ErrState;
      }
      result := engine.Write(offset, payload);
    }

    method DispatchEnd(payload: seq<byte>) returns (result: Status)
      requires engine.Valid()
      modifies this, engine, engine.copyBuffer, engine.download`points, engine.download.data,
               engine.upgrade`points, engine.upgrade.data
      ensures engine.Valid() && beginFlags == old(beginFlags)
      ensures EndPerforms(engine.policy, Reliable(), old(Look()), payload, result, Look())
      ensures result == Ok ==> engine.state == Ready
    {
      hide Verdict, Delivered, BootSafe;
      if !receiving || payload != [] {
        return ErrState;
      }
      result := engine.Finish();
      receiving := false;
    }

    /** The status words of a QUERY's answer. */
    function StatusPayload(): (b: seq<byte>)
      requires engine.Valid()
      reads this, engine, engine.header, engine.copyBuffer, engine.download, engine.download.data, engine.upgrade,
        engine.upgrade.data
      ensures |b| == STATUS_PAYLOAD_SIZE
    {
      StoreU32(StateWord(engine.state)) + StoreU32(StatusWord(engine.lastError)) + StoreU32(engine.packageSize)
      + StoreU32(engine.receivedSize) + StoreU32(engine.firmwareVersion)
    }

    /** One turn of the request loop over the bytes still to be received. */
    method Step(incoming: seq<byte>) returns (consumed: nat, response: seq<byte>, next: Next, ghost result: Status)
      requires engine.Valid()
      modifies this, engine, engine.header, engine.copyBuffer, engine.download`points, engine.download.data,
               engine.upgrade`points, engine.upgrade.data
      ensures engine.Valid()
      ensures next in {Continue, Reset} ==> 0 < consumed <= |incoming|
      ensures next == Reset ==> engine.state == Ready
      ensures next == Return ==> Parse(incoming).Good? && Parse(incoming).kind == MSG_QUERY && !lossless
      ensures var p := Parse(incoming);
              if !p.Good? then Look() == old(Look())
              else if p.kind == MSG_QUERY then
                && Look() == old(Look())
                && response == (if p.payload == [] then Response(p.kind, p.sequence, Ok, StatusPayload())
                                else Response(p.kind, p.sequence, ErrProtocol, []))
              else
                && Performs(engine.policy, Reliable(), old(Look()), p.kind, p.offset, p.payload, result, Look())
                && (next != Break ==> consumed == p.consumed && response == Response(p.kind, p.sequence, result, []))
                && (lossless ==> next != Break)
                && (p.kind == MSG_END && next != Break && result == Ok ==>
                    next == if beginFlags % 2 == 1 then Reset else Continue)
      ensures TurnOk(engine.policy, Reliable(), lossless, incoming,
              Turn(old(Look()), consumed, response, next, result, Look()))
    {
      hide Verdict, Delivered, BootSafe, Performs, Response, TurnOk, Parse;
      consumed, response, result := 0, [], ErrNetwork;
      ghost var before, reliable := Look(), Reliable();
      var p := Parse(incoming);
      match p
      case Short =>
        next := Break;
        RefusedTurn(engine.policy, reliable, lossless, incoming,
          Turn(before, consumed, response, next, result, Look()));
      case Malformed(kind, sequence) =>
        response := Response(kind, sequence, ErrProtocol, []);
        next := Break;
        RefusedTurn(engine.policy, reliable, lossless, incoming,
          Turn(before, consumed, response, next, result, Look()));
      case Rejected(kind, sequence, error, end) =>
        response := Response(kind, sequence, error, []);
        consumed, next := end, Continue;
        RefusedTurn(engine.policy, reliable, lossless, incoming,
          Turn(before, consumed, response, next, result, Look()));
      case Good(kind, sequence, offset, payload, end) =>
        consumed := end;
        if kind == MSG_QUERY {
          response := if payload == [] then Response(kind, sequence, Ok, StatusPayload())
                      else Response(kind, sequence, ErrProtocol, []);
          var sent := Send();
          next := if sent then Continue else if payload == [] then Return else Break;
          QueryTurn(engine.policy, reliable, lossless, incoming, Turn(before, consumed, response, next, result, Look()),
                    StatusPayload());
        } else {
          var outcome, reboot := Dispatch(kind, offset, payload);
          result := outcome;
          response := Response(kind, sequence, outcome, []);
          var sent := Send();
          next := if !sent then Break else if reboot then Reset else Continue;
          RequestTurn(engine.policy, reliable, lossless, incoming,
            Turn(before, consumed, response, next, result, Look()),
                      reboot, sent);
        }
    }

    /**
     * A session: requests until the connection ends, then the clean-up of a transfer the session still claims. A transfer
     * can be left open only by a failed reply to a QUERY, or by a session that lost its claim.
     */
    method HandleClient(incoming: seq<byte>) returns (outgoing: seq<byte>, left: Next, ghost turns: seq<Turn>)
      requires engine.Valid()
      modifies this, engine, engine.header, engine.copyBuffer, engine.download`points, engine.download.data,
               engine.upgrade`points, engine.upgrade.data
      ensures engine.Valid()
      ensures turns != [] && SessionOk(engine.policy, Reliable(), lossless, incoming, turns)
      ensures turns[0].before == old(Look()).(receiving := false, flags := 0)
      ensures outgoing == Answers(turns) && left == turns[|turns| - 1].next && left in {Break, Return, Reset}
      ensures var last := turns[|turns| - 1].after;
              if left == Break && last.receiving then engine.state in {Idle, Uninitialized} else Look() == last
      ensures left == Reset ==> engine.state == Ready
      ensures left == Return ==> !lossless
      ensures engine.state == Receiving ==> left == Return || (left == Break && !receiving)
    {
      hide Performs, Verdict, Delivered, BootSafe, Response, Parse, TurnOk, SessionOk, Read, Answers;
      receiving := false;
      beginFlags := 0;
      outgoing := [];
      turns := [];
      NoTurns(engine.policy, Reliable(), lossless, incoming);
      var position := 0;
      left := Continue;
      while left == Continue
        invariant engine.Valid() && position <= |incoming|
        invariant left == Continue ==> position == Read(turns)
        invariant SessionOk(engine.policy, Reliable(), lossless, incoming, turns) && outgoing == Answers(turns)
        invariant if turns == [] then left == Continue && Look() == old(Look()).(receiving := false, flags := 0)
                  else left == turns[|turns| - 1].next && Look() == turns[|turns| - 1].after
                       && turns[0].before == old(Look()).(receiving := false, flags := 0)
        invariant left == Reset ==> engine.state == Ready
        invariant left == Return ==> !lossless
        decreases left == Continue, |incoming| - position
      {
        var consumed, response;
        ghost var result;
        ghost var before := Look();
        consumed, response, left, result := Step(incoming[position..]);
        ghost var t := Turn(before, consumed, response, left, result, Look());
        SessionOn(engine.policy, Reliable(), lossless, incoming, turns, t);
        turns := turns + [t];
        outgoing := outgoing + response;
        if left == Continue {
          position := position + consumed;
        }
      }
      if left == Break && receiving {
        engine.Abort();
      }
    }
  }

  lemma NoTurns(policy: Policy, reliable: bool, lossless: bool, incoming: seq<byte>)
    ensures SessionOk(policy, reliable, lossless, incoming, []) && Read([]) == 0 && Answers([]) == []
  {
  }

  function StateWord(state: State): (w: nat)
    ensures w <= 6
  {
    match state
    case Uninitialized => 0 case Idle => 1 case Receiving => 2 case Validating => 3
    case Committing => 4 case Ready => 5 case Error => 6
  }

  /** Any request but a DATA, a second BEGIN or an END leaves an open transfer's bytes alone. */
  lemma TransferOnlyGrows(policy: Policy, reliable: bool, v: View, kind: nat, offset: nat, payload: seq<byte>,
                          result: Status, w: View)
    requires Performs(policy, reliable, v, kind, offset, payload, result, w)
    requires v.locked && v.state == Receiving && w.state == Receiving
    ensures v.stream <= w.stream
    ensures v.stream != w.stream ==> kind == MSG_DATA && offset == |v.stream| && w.stream == v.stream + payload
  {
  }

  // ----- transfers nobody owns -----

  /** The engine receives, but the session has no claim on the transfer. */
  predicate Orphan(v: View) {
    v.locked && v.state == Receiving && !v.receiving
  }

  /** Exactly which requests orphan the session's own transfer: a second BEGIN, and an END before the package is complete. */
  lemma OrphansExactly(policy: Policy, reliable: bool, v: View, kind: nat, offset: nat, payload: seq<byte>,
                       result: Status, w: View)
    requires v.locked && v.receiving && v.state == Receiving && v.packageSize >= HEADER_SIZE
    requires Performs(policy, reliable, v, kind, offset, payload, result, w)
    ensures w.state == Receiving && !w.receiving
            <==> (kind == MSG_BEGIN && |payload| == BEGIN_PAYLOAD_SIZE)
                 || (kind == MSG_END && payload == [] && |v.stream| != v.packageSize)
  {
    hide Verdict;
  }

  /** What any client can ask for, in this session or a later one, which starts without a claim. */
  datatype Asked = Query | NewSession | Message(kind: nat, offset: nat, payload: seq<byte>, result: Status)

  ghost predicate Answered(policy: Policy, reliable: bool, v: View, a: Asked, w: View) {
    match a
    case Query => w == v
    case NewSession => w == v.(receiving := false, flags := 0)
    case Message(kind, offset, payload, result) => Performs(policy, reliable, v, kind, offset, payload, result, w)
  }

  /** One request leaves an orphan an orphan, with the bytes it had, unless it is an empty ABORT. */
  lemma OrphanStays(policy: Policy, reliable: bool, v: View, a: Asked, w: View)
    requires Orphan(v) && Answered(policy, reliable, v, a, w)
    ensures Orphan(w) <==> !(a.Message? && a.kind == MSG_ABORT && a.payload == [])
    ensures Orphan(w) ==> w.stream == v.stream && w.packageSize == v.packageSize
  {
    hide Verdict;
  }

  /** However many requests and sessions follow, an orphan stays one until somebody sends an empty ABORT. */
  lemma {:induction false} OrphanSurvives(policy: Policy, reliable: bool, views: seq<View>, asked: seq<Asked>)
    requires |views| == |asked| + 1 && Orphan(views[0])
    requires forall k :: 0 <= k < |asked| ==> Answered(policy, reliable, views[k], asked[k], views[k + 1])
    requires forall k :: 0 <= k < |asked| ==>
               !(asked[k].Message? && asked[k].kind == MSG_ABORT && asked[k].payload == [])
    ensures Orphan(views[|asked|]) && views[|asked|].stream == views[0].stream
    decreases |asked|
  {
    hide Answered;
    if asked != [] {
      var n := |asked| - 1;
      OrphanSurvives(policy, reliable, views[..n + 1], asked[..n]);
      assert Answered(policy, reliable, views[n], asked[n], views[n + 1]);
      OrphanStays(policy, reliable, views[n], asked[n], views[n + 1]);
    }
  }

  /** BEGIN, then END: the bytes of a session that leaves the engine receiving, with nobody to finish or abort. */
  function OrphaningBytes(size: nat, crc: nat): seq<byte>
    requires size < TWO_TO_THE_32 && crc < TWO_TO_THE_32
  {
    Request(MSG_BEGIN, 1, 0, BeginPayload(size, crc, 0)) + Request(MSG_END, 2, 0, [])
  }

  /** On a device without faults that is not receiving, that session always does so. */
  method OrphaningSession(server: Server, size: nat, crc: nat) returns (outgoing: seq<byte>, left: Next)
    requires server.engine.Valid() && server.engine.locked && server.engine.state != Receiving
    requires server.lossless && server.Reliable() && SizeFits(size) && crc < TWO_TO_THE_32
    modifies server, server.engine, server.engine.header, server.engine.copyBuffer,
             server.engine.download`points, server.engine.download.data,
             server.engine.upgrade`points, server.engine.upgrade.data
    ensures left == Break && Orphan(server.Look()) && server.engine.stream == []
  {
    hide Engine.Valid, SessionOk, Answers, Verdict, Delivered, BootSafe;
    ghost var v := server.Look().(receiving := false, flags := 0);
    ghost var turns;
    outgoing, left, turns := server.HandleClient(OrphaningBytes(size, crc));
    OrphaningTurns(server.engine.policy, server.Reliable(), v, size, crc, turns);
  }

  lemma OrphaningTurns(policy: Policy, reliable: bool, v: View, size: nat, crc: nat, turns: seq<Turn>)
    requires v.locked && v.state != Receiving && !v.receiving && reliable && SizeFits(size) && crc < TWO_TO_THE_32
    requires turns != [] && turns[0].before == v && turns[|turns| - 1].next != Continue
    requires SessionOk(policy, reliable, true, OrphaningBytes(size, crc), turns)
    ensures turns[|turns| - 1].next == Break && Orphan(turns[|turns| - 1].after)
            && turns[|turns| - 1].after.stream == []
  {
    assert size < TWO_TO_THE_32;
    hide *;
    OrphaningBegin(policy, reliable, v, size, crc, turns);
    OrphaningEnd(policy, reliable, size, crc, turns);
    OrphaningClose(policy, reliable, OrphaningBytes(size, crc), turns);
    OrphanLeft(turns[2].after, size, crc);
  }

  lemma OrphanLeft(w: View, size: nat, crc: nat)
    requires w == View(true, Receiving, size, crc, [], false, 0)
    ensures Orphan(w) && w.stream == []
  {
  }

  lemma OrphaningBegin(policy: Policy, reliable: bool, v: View, size: nat, crc: nat, turns: seq<Turn>)
    requires v.locked && v.state != Receiving && reliable && SizeFits(size) && crc < TWO_TO_THE_32
    requires turns != [] && turns[0].before == v && turns[|turns| - 1].next != Continue
    requires SessionOk(policy, reliable, true, OrphaningBytes(size, crc), turns)
    ensures |turns| > 1 && turns[0].next == Continue && turns[0].after == View(true, Receiving, size, crc, [], true, 0)
    ensures Read(turns[..1]) == FRAME_HEADER_SIZE + BEGIN_PAYLOAD_SIZE
  {
    var incoming := OrphaningBytes(size, crc);
    hide *;
    FirstTurn(policy, reliable, incoming, turns);
    BeginTurn(policy, reliable, incoming, size, crc, turns[0]);
    TurnAt(policy, reliable, incoming, turns, 1);
  }

  lemma FirstTurn(policy: Policy, reliable: bool, incoming: seq<byte>, turns: seq<Turn>)
    requires SessionOk(policy, reliable, true, incoming, turns) && turns != []
    ensures TurnOk(policy, reliable, true, incoming, turns[0]) && Read(turns[..1]) == turns[0].consumed
  {
    hide TurnOk;
    assert Continues(policy, reliable, true, incoming, turns[..0], turns[0]);
    assert turns[..0] == [] && incoming[0..] == incoming;
    assert turns[..1][..0] == [];
  }

  lemma OrphaningEnd(policy: Policy, reliable: bool, size: nat, crc: nat, turns: seq<Turn>)
    requires SizeFits(size) && crc < TWO_TO_THE_32 && |turns| > 1 && turns[|turns| - 1].next != Continue
    requires SessionOk(policy, reliable, true, OrphaningBytes(size, crc), turns)
    requires turns[0].next == Continue && turns[0].after == View(true, Receiving, size, crc, [], true, 0)
    requires Read(turns[..1]) == FRAME_HEADER_SIZE + BEGIN_PAYLOAD_SIZE
    ensures |turns| > 2 && turns[1].next == Continue && turns[1].after == View(true, Receiving, size, crc, [], false, 0)
    ensures Read(turns[..2]) == |OrphaningBytes(size, crc)|
  {
    var incoming := OrphaningBytes(size, crc);
    assert 0 != size < TWO_TO_THE_32;
    BytesLeft(size, crc);
    hide *;
    TurnAt(policy, reliable, incoming, turns, 1);
    EndTurn(policy, reliable, incoming[FRAME_HEADER_SIZE + BEGIN_PAYLOAD_SIZE..], turns[1]);
    ReadOn(turns, 1);
    TurnAt(policy, reliable, incoming, turns, 2);
  }

  lemma ReadOn(turns: seq<Turn>, k: nat)
    requires k < |turns|
    ensures Read(turns[..k + 1]) == Read(turns[..k]) + turns[k].consumed
  {
    assert turns[..k + 1][..k] == turns[..k];
  }

  lemma OrphaningClose(policy: Policy, reliable: bool, incoming: seq<byte>, turns: seq<Turn>)
    requires SessionOk(policy, reliable, true, incoming, turns) && |turns| > 2 && turns[|turns| - 1].next != Continue
    requires turns[1].next == Continue && Read(turns[..2]) == |incoming|
    ensures |turns| == 3 && turns[2].next == Break && turns[2].after == turns[1].after
  {
    hide *;
    TurnAt(policy, reliable, incoming, turns, 2);
    assert incoming[|incoming|..] == [];
    ShortTurn(policy, reliable, incoming[Read(turns[..2])..], turns[2]);
    if |turns| > 3 {
      TurnAt(policy, reliable, incoming, turns, 3);
    }
  }

  lemma TurnAt(policy: Policy, reliable: bool, incoming: seq<byte>, turns: seq<Turn>, k: nat)
    requires SessionOk(policy, reliable, true, incoming, turns) && turns != [] && turns[|turns| - 1].next != Continue
    requires k <= |turns| && (k > 0 ==> turns[k - 1].next == Continue || k < |turns|)
    ensures k < |turns| && Read(turns[..k]) <= |incoming|
    ensures TurnOk(policy, reliable, true, incoming[Read(turns[..k])..], turns[k])
    ensures k > 0 ==> turns[k - 1].next == Continue && turns[k].before == turns[k - 1].after
  {
    hide TurnOk, Read;
    assert Continues(policy, reliable, true, incoming, turns[..k], turns[k]);
    assert k > 0 ==> turns[..k][k - 1] == turns[k - 1];
  }

  lemma BytesLeft(size: nat, crc: nat)
    requires size < TWO_TO_THE_32 && crc < TWO_TO_THE_32
    ensures |OrphaningBytes(size, crc)| == 2 * FRAME_HEADER_SIZE + BEGIN_PAYLOAD_SIZE
    ensures OrphaningBytes(size, crc)[FRAME_HEADER_SIZE + BEGIN_PAYLOAD_SIZE..] == Request(MSG_END, 2, 0, []) + []
  {
    hide Request, BeginPayload;
  }

  lemma ShortTurn(policy: Policy, reliable: bool, incoming: seq<byte>, t: Turn)
    requires incoming == [] && TurnOk(policy, reliable, true, incoming, t)
    ensures t.next == Break && t.after == t.before
  {
  }

  lemma BeginTurn(policy: Policy, reliable: bool, incoming: seq<byte>, size: nat, crc: nat, t: Turn)
    requires reliable && SizeFits(size) && crc < TWO_TO_THE_32 && incoming == OrphaningBytes(size, crc)
    requires t.before.locked && t.before.state != Receiving && TurnOk(policy, reliable, true, incoming, t)
    ensures t.next == Continue && t.consumed == FRAME_HEADER_SIZE + BEGIN_PAYLOAD_SIZE
    ensures t.after == View(true, Receiving, size, crc, [], true, 0)
  {
    ParseRequest(MSG_BEGIN, 1, 0, BeginPayload(size, crc, 0), Request(MSG_END, 2, 0, []));
    BeginPayloadFields(size, crc, 0);
    hide Request, Parse, BeginPayload, U32, Response;
  }

  lemma EndTurn(policy: Policy, reliable: bool, incoming: seq<byte>, t: Turn)
    requires incoming == Request(MSG_END, 2, 0, []) + [] && TurnOk(policy, reliable, true, incoming, t)
    requires t.before.locked && t.before.receiving && t.before.state == Receiving
             && |t.before.stream| != t.before.packageSize
    ensures t.next == Continue && t.consumed == FRAME_HEADER_SIZE && t.after == t.before.(receiving := false)
  {
    ParseRequest(MSG_END, 2, 0, [], []);
    hide Request, Parse, Response;
  }
}
