/** A legacy admin connection to the coordinator: requests that wait for a
    configuration or for stability (crates/server). */
module AdminSession {
  import opened Base
  import opened Numbering
  import opened Sorting
  import opened Wire

  const LEGACY_COORDINATOR_SERVER_ID: u64 := 2
  const LEGACY_REPLICANT_TICK_STATE: u64 := 1

  datatype Status = Success | CondNotFound | ObjNotFound | FuncNotFound

  /** The frames a session sends, before they are put on the wire. */
  datatype Reply =
    | Identified(localId: u64, remoteId: u64)
    | Bootstrapped(serverId: u64, configuration: Bytes)
    | RobustParams(nonce: u64, commandNonce: u64)
    | CallDone(nonce: u64, status: Status, output: Bytes)
    | ConditionDone(nonce: u64, status: Status, state: u64, data: Bytes)

  /** What the session reads from the runtime, and the coordinator's own address
      as it stands on the wire. The configuration encoder fails on schemas that the
      legacy format cannot express. */
  datatype RuntimeView = RuntimeView(version: u64, stableThrough: u64, encoded: Option<Bytes>, address: Bytes)

  /** A decoded frame. The effect of a call on the runtime belongs to the runtime:
      here it is an answer, or an error, and the view it leaves behind. */
  datatype Frame =
    | Identify(localId: u64, remoteId: u64)
    | Bootstrap
    | GetRobustParams(nonce: u64)
    | CondWait(nonce: u64, target: string, condition: string, state: u64)
    | Call(nonce: u64, target: string, function_: string, answer: Option<Bytes>, after: RuntimeView)
    | Undecodable

  datatype Session = Session(
    nextRobustNonce: u64,
    senderId: u64,
    identified: bool,
    peerLocalId: u64,
    configWaits: map<u64, u64>,      // nonce to requested state
    stableWaits: map<u64, u64>,
    completions: seq<Reply>)

  const FRESH_SESSION := Session(1, LEGACY_COORDINATOR_SERVER_ID, false, 0, map[], map[], [])

  function ConditionState(version: u64): u64 { if version == TWO_64 - 1 then version else version + 1 }

  /** Cluster, version and first slot, each 1, and the coordinator as the only
      server. */
  function BootstrapConfiguration(senderId: u64, address: Bytes): Bytes {
    Be(1, 8) + (Be(ConditionState(0), 8) + (Be(1, 8) + (Leb128(1) + (Be(senderId, 8) + address))))
  }

  /** Field by field. */
  lemma BootstrapReadBack(senderId: u64, address: Bytes)
    ensures var bytes := BootstrapConfiguration(senderId, address);
      && |bytes| == 33 + |address|
      && FromBe(bytes[..8]) == 1 && FromBe(bytes[8..][..8]) == 1 && FromBe(bytes[16..][..8]) == 1
      && bytes[24] == 1 && FromBe(bytes[25..][..8]) == senderId && bytes[33..] == address
  {
    hide Be, FromBe;
    var bytes, one, id := BootstrapConfiguration(senderId, address), Be(1, 8), Be(senderId, 8);
    assert Leb128(1) == [1];
    assert bytes[0..] == bytes;
    Advance(bytes, 0, one, one + (one + ([1] + (id + address))));
    Advance(bytes, 8, one, one + ([1] + (id + address)));
    Advance(bytes, 16, one, [1] + (id + address));
    Advance(bytes, 24, [1], id + address);
    Advance(bytes, 25, id, address);
    assert bytes[..8] == bytes[8..][..8] == bytes[16..][..8] == one && bytes[25..][..8] == id && bytes[24] == bytes[24..][0];
    Widths();
    FromBeOfBe(1, 8);
    FromBeOfBe(senderId, 8);
  }

  function Queue(s: Session, reply: Reply): Session { s.(completions := s.completions + [reply]) }

  function ObserveIdentify(s: Session, localId: u64, remoteId: u64): Result<(Session, bool)> {
    if !s.identified then
      Ok((s.(senderId := if remoteId != 0 then remoteId else s.senderId, peerLocalId := localId, identified := true), true))
    else if remoteId != 0 && remoteId != s.senderId then Err(Other)
    else if localId != 0 && s.peerLocalId != 0 && localId != s.peerLocalId then Err(Other)
    else Ok((s, false))
  }

  // ----------------------------------------------------------------- ready waits

  /** The waits whose requested state is reached. */
  function ReadyNonces(waits: map<u64, u64>, state: u64): set<u64> { set n | n in waits && waits[n] <= state }

  function Completed(nonce: u64, state: u64, data: Bytes): Reply { ConditionDone(nonce, Success, state, data) }

  function CompletedAll(nonces: seq<u64>, state: u64, data: Bytes): seq<Reply> {
    if nonces == [] then [] else [Completed(nonces[0], state, data)] + CompletedAll(nonces[1..], state, data)
  }

  function FinishStable(s: Session, view: RuntimeView): Session {
    var state := ConditionState(view.stableThrough);
    var ready := ReadyNonces(s.stableWaits, state);
    s.(stableWaits := s.stableWaits - ready, completions := s.completions + CompletedAll(Ascending(ready), state, []))
  }

  function FinishConfig(s: Session, view: RuntimeView): Result<Session> {
    var state := ConditionState(view.version);
    var ready := ReadyNonces(s.configWaits, state);
    if ready == {} then Ok(s)
    else if view.encoded.None? then Err(Other)
    else Ok(s.(configWaits := s.configWaits - ready,
               completions := s.completions + CompletedAll(Ascending(ready), state, view.encoded.value)))
  }

  // ---------------------------------------------------------------------- frames

  function WaitForCondition(s: Session, view: RuntimeView, f: Frame): Result<Session>
    requires f.CondWait?
  {
    if f.target == "replicant" && f.condition == "configuration" then
      Ok(if f.state > ConditionState(0) then s
         else Queue(s, Completed(f.nonce, ConditionState(0), BootstrapConfiguration(s.senderId, view.address))))
    else if f.target == "replicant" && f.condition == "tick" then
      Ok(if f.state <= LEGACY_REPLICANT_TICK_STATE then Queue(s, Completed(f.nonce, LEGACY_REPLICANT_TICK_STATE, [])) else s)
    else if f.target == "hyperdex" && f.condition == "config" then
      if f.state > ConditionState(view.version) then Ok(s.(configWaits := s.configWaits[f.nonce := f.state]))
      else if view.encoded.None? then Err(Other)
      else Ok(Queue(s, Completed(f.nonce, ConditionState(view.version), view.encoded.value)))
    else if f.target == "hyperdex" && f.condition == "stable" then
      if f.state > ConditionState(view.stableThrough) then Ok(s.(stableWaits := s.stableWaits[f.nonce := f.state]))
      else Ok(Queue(s, Completed(f.nonce, ConditionState(view.stableThrough), [])))
    else Ok(Queue(s, ConditionDone(f.nonce, CondNotFound, f.state, [])))
  }

  function AnswerCall(s: Session, f: Frame): Result<Session>
    requires f.Call?
  {
    if f.target != "hyperdex" then Ok(Queue(s, CallDone(f.nonce, ObjNotFound, [])))
    else if f.function_ == "space_add" || f.function_ == "space_rm" then
      if f.answer.None? then Err(Other) else Ok(Queue(s, CallDone(f.nonce, Success, f.answer.value)))
    else Ok(Queue(s, CallDone(f.nonce, FuncNotFound, [])))
  }

  /** Only a call to the coordinator's own functions can change the runtime. */
  function ViewAfter(view: RuntimeView, f: Frame): RuntimeView {
    if f.Call? && f.target == "hyperdex" && (f.function_ == "space_add" || f.function_ == "space_rm") then f.after else view
  }

  predicate IsRequest(f: Frame) { f.GetRobustParams? || f.CondWait? || f.Call? }

  function Request(s: Session, view: RuntimeView, f: Frame): Result<Session>
    requires IsRequest(f)
  {
    match f
    case GetRobustParams(nonce) =>
      Ok(Queue(s, RobustParams(nonce, s.nextRobustNonce)).(nextRobustNonce := ConditionState(s.nextRobustNonce)))
    case CondWait(_, _, _, _) => WaitForCondition(s, view, f)
    case Call(_, _, _, _, _) => AnswerCall(s, f)
  }

  /** Every request ends by completing the waits that have become ready. */
  function Handle(s: Session, view: RuntimeView, f: Frame): Result<Session> {
    match f
    case Identify(localId, remoteId) =>
      var observed :- ObserveIdentify(s, localId, remoteId);
      Ok(if observed.1 then Queue(observed.0, Identified(observed.0.senderId, localId)) else observed.0)
    case Bootstrap => Ok(Queue(s, Bootstrapped(s.senderId, BootstrapConfiguration(s.senderId, view.address))))
    case Undecodable => Err(Other)
    case _ =>
      var requested :- Request(s, view, f);
      var configured :- FinishConfig(requested, ViewAfter(view, f));
      Ok(FinishStable(configured, ViewAfter(view, f)))
  }

  // ---------------------------------------------------------------- the session object

  class CoordinatorAdminSession {
    var nextRobustNonce: u64
    var senderId: u64
    var identified: bool
    var peerLocalId: u64
    var pendingConfigWaits: map<u64, u64>
    var pendingWaits: map<u64, u64>
    var pendingCompletions: seq<Reply>

    ghost function Contents(): Session
      reads this
    {
      Session(nextRobustNonce, senderId, identified, peerLocalId, pendingConfigWaits, pendingWaits, pendingCompletions)
    }

    constructor ()
      ensures Contents() == FRESH_SESSION
    {
      nextRobustNonce, senderId := 1, LEGACY_COORDINATOR_SERVER_ID;
      identified, peerLocalId := false, 0;
      pendingConfigWaits, pendingWaits, pendingCompletions := map[], map[], [];
    }

    method Push(reply: Reply)
      modifies this`pendingCompletions
      ensures Contents() == Queue(old(Contents()), reply)
    {
      pendingCompletions := pendingCompletions + [reply];
    }

    method ObservePeer(localId: u64, remoteId: u64) returns (r: Result<bool>)
      modifies this
      ensures match ObserveIdentify(old(Contents()), localId, remoteId)
              case Err(e) => r == Err(e)
              case Ok(observed) => r == Ok(observed.1) && Contents() == observed.0
    {
      if !identified {
        if remoteId != 0 {
          senderId := remoteId;
        }
        peerLocalId := localId;
        identified := true;
        return Ok(true);
      }
      if remoteId != 0 && remoteId != senderId {
        return Err(Other);
      }
      if localId != 0 && peerLocalId != 0 && localId != peerLocalId {
        return Err(Other);
      }
      r := Ok(false);
    }

    method AllocateRobustCommandNonce() returns (nonce: u64)
      modifies this`nextRobustNonce
      ensures nonce == old(nextRobustNonce) && nextRobustNonce == ConditionState(nonce)
    {
      nonce := nextRobustNonce;
      nextRobustNonce := ConditionState(nextRobustNonce);
    }

    /** The ready waits are collected first, then taken out one by one. */
    method QueueReadyWaits(view: RuntimeView)
      modifies this`pendingWaits, this`pendingCompletions
      ensures Contents() == FinishStable(old(Contents()), view)
    {
      var state := ConditionState(view.stableThrough);
      var ready := Ascending(ReadyNonces(pendingWaits, state));
      ghost var waits, sent := pendingWaits, pendingCompletions;
      assert ready[..0] == [] && ready[0..] == ready && waits - {} == waits;
      for i := 0 to |ready|
        invariant pendingWaits == waits - Taken(ready, i)
        invariant pendingCompletions + CompletedAll(ready[i..], state, []) == sent + CompletedAll(ready, state, [])
      {
        TakeOne(ready, i, waits);
        assert ready[i..][1..] == ready[i + 1..];
        pendingWaits := pendingWaits - {ready[i]};
        Assoc(pendingCompletions, [Completed(ready[i], state, [])], CompletedAll(ready[i + 1..], state, []));
        Push(Completed(ready[i], state, []));
      }
      AllTaken(ReadyNonces(waits, state));
      assert ready[|ready|..] == [] && pendingCompletions + [] == pendingCompletions;
    }

    method QueueReadyConfigWaits(view: RuntimeView) returns (r: Result<()>)
      modifies this`pendingConfigWaits, this`pendingCompletions
      ensures match FinishConfig(old(Contents()), view)
              case Err(e) => r == Err(e)
              case Ok(s) => r == Ok(()) && Contents() == s
    {
      hide FinishConfig, ReadyNonces;
      var state := ConditionState(view.version);
      var ready := Ascending(ReadyNonces(pendingConfigWaits, state));
      ghost var before := Contents();
      ghost var waits, sent := pendingConfigWaits, pendingCompletions;
      ghost var data := DataOf(view);
      FinishConfigCases(before, view);
      assert ready[..0] == [] && ready[0..] == ready && waits - {} == waits;
      for i := 0 to |ready|
        invariant i > 0 ==> view.encoded.Some?
        invariant Contents() == before.(configWaits := pendingConfigWaits, completions := pendingCompletions)
        invariant pendingConfigWaits == waits - Taken(ready, i)
        invariant pendingCompletions + CompletedAll(ready[i..], state, data) == sent + CompletedAll(ready, state, data)
      {
        TakeOne(ready, i, waits);
        assert ready[i..][1..] == ready[i + 1..];
        pendingConfigWaits := pendingConfigWaits - {ready[i]};
        if view.encoded.None? {
          return Err(Other);
        }
        Assoc(pendingCompletions, [Completed(ready[i], state, data)], CompletedAll(ready[i + 1..], state, data));
        Push(Completed(ready[i], state, view.encoded.value));
      }
      AllTaken(ReadyNonces(waits, state));
      assert ready[|ready|..] == [] && pendingCompletions + [] == pendingCompletions;
      r := Ok(());
    }

    method HandleCondWait(view: RuntimeView, f: Frame) returns (r: Result<()>)
      requires f.CondWait?
      modifies this
      ensures match WaitForCondition(old(Contents()), view, f)
              case Err(e) => r == Err(e)
              case Ok(s) => r == Ok(()) && Contents() == s
    {
      r := Ok(());
      if f.target == "replicant" && f.condition == "configuration" {
        if f.state <= ConditionState(0) {
          Push(Completed(f.nonce, ConditionState(0), BootstrapConfiguration(senderId, view.address)));
        }
      } else if f.target == "replicant" && f.condition == "tick" {
        if f.state <= LEGACY_REPLICANT_TICK_STATE {
          Push(Completed(f.nonce, LEGACY_REPLICANT_TICK_STATE, []));
        }
      } else if f.target == "hyperdex" && f.condition == "config" {
        var configState := ConditionState(view.version);
        if f.state > configState {
          pendingConfigWaits := pendingConfigWaits[f.nonce := f.state];
        } else if view.encoded.None? {
          return Err(Other);
        } else {
          Push(Completed(f.nonce, configState, view.encoded.value));
        }
      } else if f.target == "hyperdex" && f.condition == "stable" {
        var stableState := ConditionState(view.stableThrough);
        if f.state > stableState {
          pendingWaits := pendingWaits[f.nonce := f.state];
        } else {
          Push(Completed(f.nonce, stableState, []));
        }
      } else {
        Push(ConditionDone(f.nonce, CondNotFound, f.state, []));
      }
    }

    method HandleCall(f: Frame) returns (r: Result<()>)
      requires f.Call?
      modifies this
      ensures match AnswerCall(old(Contents()), f)
              case Err(e) => r == Err(e)
              case Ok(s) => r == Ok(()) && Contents() == s
    {
      if f.target != "hyperdex" {
        Push(CallDone(f.nonce, ObjNotFound, []));
      } else if f.function_ == "space_add" || f.function_ == "space_rm" {
        if f.answer.None? {
          return Err(Other);
        }
        Push(CallDone(f.nonce, Success, f.answer.value));
      } else {
        Push(CallDone(f.nonce, FuncNotFound, []));
      }
      r := Ok(());
    }

    /** Hands the queued frames over to the connection. */
    method TakePendingFrames() returns (frames: seq<Reply>)
      modifies this`pendingCompletions
      ensures frames == old(pendingCompletions) && Contents() == old(Contents()).(completions := [])
    {
      frames := pendingCompletions;
      pendingCompletions := [];
    }

    method HandleFrame(view: RuntimeView, f: Frame) returns (r: Result<()>)
      modifies this
      ensures match Handle(old(Contents()), view, f)
              case Err(e) => r == Err(e)
              case Ok(s) => r == Ok(()) && Contents() == s
    {
      hide FinishStable, FinishConfig;
      match f {
        case Identify(localId, remoteId) =>
          var first := ObservePeer(localId, remoteId);
          if first.Err? {
            return Err(first.error);
          }
          if first.value {
            Push(Identified(senderId, localId));
          }
          return Ok(());
        case Bootstrap =>
          Push(Bootstrapped(senderId, BootstrapConfiguration(senderId, view.address)));
          return Ok(());
        case Undecodable => return Err(Other);
        case GetRobustParams(nonce) =>
          var commandNonce := AllocateRobustCommandNonce();
          Push(RobustParams(nonce, commandNonce));
        case CondWait(_, _, _, _) =>
          var waited := HandleCondWait(view, f);
          if waited.Err? {
            return waited;
          }
        case Call(_, _, _, _, _) =>
          var called := HandleCall(f);
          if called.Err? {
            return called;
          }
      }
      r := QueueReadyConfigWaits(ViewAfter(view, f));
      if r.Ok? {
        QueueReadyWaits(ViewAfter(view, f));
      }
    }

    /** One turn of the loop that serves a connection, of which this is the session. */
    method ServeFrame(view: RuntimeView, f: Frame, ghost l: Ledger) returns (frames: Result<seq<Reply>>)
      requires l.session == Contents()
      modifies this
      ensures match Turn(l, Event(view, f))
              case Err(e) => frames == Err(e)
              case Ok(after) => frames.Ok? && after == Ledger(Contents(), l.sent + frames.value)
    {
      hide Handle;
      var handled := HandleFrame(view, f);
      if handled.Err? {
        return Err(handled.error);
      }
      var queued := TakePendingFrames();
      frames := Ok(queued);
    }
  }

  function DataOf(view: RuntimeView): Bytes { if view.encoded.Some? then view.encoded.value else [] }

  /** The encoder matters only if there is something to send. */
  lemma FinishConfigCases(s: Session, view: RuntimeView)
    ensures
      var state := ConditionState(view.version);
      var ready := ReadyNonces(s.configWaits, state);
      FinishConfig(s, view) ==
        if Ascending(ready) != [] && view.encoded.None? then Err(Other)
        else Ok(s.(configWaits := s.configWaits - ready,
                   completions := s.completions + CompletedAll(Ascending(ready), state, DataOf(view))))
  {
    hide ReadyNonces;
    var ready := ReadyNonces(s.configWaits, ConditionState(view.version));
    if ready == {} { assert s.configWaits - ready == s.configWaits && s.completions + [] == s.completions; }
  }

  function Taken(ready: seq<u64>, i: nat): set<u64>
    requires i <= |ready|
  {
    set n | n in ready[..i]
  }

  lemma TakeOne(ready: seq<u64>, i: nat, waits: map<u64, u64>)
    requires i < |ready|
    ensures waits - Taken(ready, i) - {ready[i]} == waits - Taken(ready, i + 1)
  {
    assert ready[..i + 1] == ready[..i] + [ready[i]];
  }

  lemma AllTaken(ids: set<u64>)
    ensures Taken(Ascending(ids), |Ascending(ids)|) == ids
  {
    AscendingFacts(ids);
    assert Ascending(ids)[..|Ascending(ids)|] == Ascending(ids);
  }

  // ------------------------------------------------------------- a whole connection

  /** A connection: the session and everything sent so far. */
  datatype Ledger = Ledger(session: Session, sent: seq<Reply>)

  /** A frame and what the runtime shows when it arrives. */
  datatype Event = Event(view: RuntimeView, frame: Frame)

  const NEW_CONNECTION := Ledger(FRESH_SESSION, [])

  /** One turn of the connection's loop: a frame is handled, then everything
      queued is sent. */
  function Turn(l: Ledger, e: Event): Result<Ledger> {
    var s :- Handle(l.session, e.view, e.frame);
    Ok(Ledger(s.(completions := []), l.sent + s.completions))
  }

  function Run(l: Ledger, events: seq<Event>): Result<Ledger>
    decreases |events|
  {
    if events == [] then Ok(l)
    else
      var next :- Turn(l, events[0]);
      Run(next, events[1..])
  }

  lemma {:induction false} RunAppend(l: Ledger, events: seq<Event>, more: seq<Event>)
    ensures Run(l, events + more) ==
      match Run(l, events)
      case Err(e) => Err(e)
      case Ok(mid) => Run(mid, more)
    decreases |events|
  {
    hide Turn;
    if events == [] {
      assert events + more == more;
    } else {
      assert (events + more)[1..] == events[1..] + more;
      if Turn(l, events[0]).Ok? { RunAppend(Turn(l, events[0]).value, events[1..], more); }
    }
  }

  /** Between two turns everything queued has been sent. */
  lemma {:induction false} RunDrains(l: Ledger, events: seq<Event>)
    requires l.session.completions == [] && Run(l, events).Ok?
    ensures Run(l, events).value.session.completions == []
    decreases |events|
  {
    hide Handle;
    if events != [] { RunDrains(Turn(l, events[0]).value, events[1..]); }
  }

  /** What went out is what the run of all frames sent or, if it failed, of those
      before the frame it failed with. */
  ghost predicate Served(events: seq<Event>, sent: seq<Reply>, failure: Option<Error>) {
    match Run(NEW_CONNECTION, events)
    case Ok(l) => failure.None? && sent == l.sent
    case Err(e) => failure == Some(e) && exists k :: 0 <= k < |events| && StopsAfter(events, k, sent)
  }

  ghost predicate StopsAfter(events: seq<Event>, k: nat, sent: seq<Reply>)
    requires k < |events|
  {
    var before := Run(NEW_CONNECTION, events[..k]);
    before.Ok? && before.value.sent == sent && Turn(before.value, events[k]).Err?
  }

  /** The connection's loop: it ends with the events or with the first frame that
      fails, and what was sent before stays sent. */
  method ServeConnection(events: seq<Event>) returns (sent: seq<Reply>, failure: Option<Error>)
    ensures Served(events, sent, failure)
  {
    hide Turn;
    var session := new CoordinatorAdminSession();
    sent := [];
    assert events[..0] == [] && events[0..] == events;
    for k := 0 to |events|
      invariant fresh(session)
      invariant Run(NEW_CONNECTION, events[..k]) == Ok(Ledger(session.Contents(), sent))
      invariant Run(NEW_CONNECTION, events) == Run(Ledger(session.Contents(), sent), events[k..])
    {
      ghost var l := Ledger(session.Contents(), sent);
      assert events[k..][1..] == events[k + 1..];
      assert events[..k + 1] == events[..k] + [events[k]];
      RunAppend(NEW_CONNECTION, events[..k], [events[k]]);
      RunOne(l, events[k]);
      var frames := session.ServeFrame(events[k].view, events[k].frame, l);
      if frames.Err? {
        assert StopsAfter(events, k, sent);
        return sent, Some(frames.error);
      }
      sent := sent + frames.value;
    }
    assert events[..|events|] == events && events[|events|..] == [];
    failure := None;
  }

  lemma RunOne(l: Ledger, e: Event)
    ensures Run(l, [e]) == Turn(l, e)
  {
    hide Turn;
    assert [e][1..] == [];
  }

  // --------------------------------------------------------------- who is speaking

  /** The first introduction of a run. */
  function FirstIdentify(events: seq<Event>): Option<Frame> {
    if events == [] then None
    else if events[0].frame.Identify? then Some(events[0].frame)
    else FirstIdentify(events[1..])
  }

  function Introductions(sent: seq<Reply>): seq<Reply> { Filter(sent, (r: Reply) => r.Identified?) }

  lemma IntroductionsConcat(a: seq<Reply>, b: seq<Reply>)
    ensures Introductions(a + b) == Introductions(a) + Introductions(b)
  {
    FilterConcat(a, b, (r: Reply) => r.Identified?);
  }

  /** What an introduced session is committed to. */
  predicate Consistent(s: Session, f: Frame) {
    f.Identify? ==>
      && s.identified
      && (f.remoteId == 0 || f.remoteId == s.senderId)
      && (f.localId == 0 || s.peerLocalId == 0 || f.localId == s.peerLocalId)
  }

  ghost predicate SameIdentity(a: Session, b: Session) {
    a.identified == b.identified && a.senderId == b.senderId && a.peerLocalId == b.peerLocalId
  }

  lemma {:induction false} NoIntroductions(replies: seq<Reply>)
    requires forall r :: r in replies ==> !r.Identified?
    ensures Introductions(replies) == []
  {
    if replies != [] {
      assert replies[0] in replies;
      NoIntroductions(replies[1..]);
    }
  }

  lemma {:induction false} BatchIntroducesNobody(nonces: seq<u64>, state: u64, data: Bytes)
    ensures forall r :: r in CompletedAll(nonces, state, data) ==> !r.Identified?
  {
    if nonces != [] { BatchIntroducesNobody(nonces[1..], state, data); }
  }

  /** Only an introduction changes who speaks to whom, and only the first one. */
  lemma TurnIdentity(l: Ledger, e: Event)
    requires l.session.completions == [] && Turn(l, e).Ok?
    ensures var s, after := l.session, Turn(l, e).value;
      if e.frame.Identify? && !s.identified then
        && after.session.identified && after.session.peerLocalId == e.frame.localId
        && after.session.senderId == (if e.frame.remoteId != 0 then e.frame.remoteId else s.senderId)
        && Introductions(after.sent) == Introductions(l.sent) + [Identified(after.session.senderId, e.frame.localId)]
      else
        && SameIdentity(s, after.session) && Consistent(s, e.frame)
        && Introductions(after.sent) == Introductions(l.sent)
  {
    hide FinishConfig, FinishStable, Introductions, CompletedAll;
    var after := Handle(l.session, e.view, e.frame).value;
    IntroductionsConcat(l.sent, after.completions);
    if IsRequest(e.frame) {
      RequestIdentity(l.session, e.view, e.frame);
      NoIntroductions(after.completions);
      assert Introductions(l.sent) + [] == Introductions(l.sent);
    } else if e.frame.Identify? && !l.session.identified {
      assert after.completions == [Identified(after.senderId, e.frame.localId)];
      OneIntroduction(Identified(after.senderId, e.frame.localId));
    } else {
      NoIntroductions(after.completions);
      assert Introductions(l.sent) + [] == Introductions(l.sent);
    }
  }

  lemma OneIntroduction(r: Reply)
    requires r.Identified?
    ensures Introductions([r]) == [r]
  {
    assert [r][1..] == [] && Introductions([]) == [];
  }

  lemma RequestIdentity(s: Session, view: RuntimeView, f: Frame)
    requires s.completions == [] && IsRequest(f) && Handle(s, view, f).Ok?
    ensures SameIdentity(s, Handle(s, view, f).value)
    ensures forall r :: r in Handle(s, view, f).value.completions ==> !r.Identified?
  {
    hide Request, FinishConfig, FinishStable;
    var requested, after := Request(s, view, f).value, ViewAfter(view, f);
    assert SameIdentity(s, requested) && forall r :: r in requested.completions ==> !r.Identified? by {
      RequestSpeaksForNobody(s, view, f);
    }
    FinishSpeaksForNobody(requested, after);
    FinishSpeaksForNobody(FinishConfig(requested, after).value, after);
  }

  lemma RequestSpeaksForNobody(s: Session, view: RuntimeView, f: Frame)
    requires s.completions == [] && IsRequest(f) && Request(s, view, f).Ok?
    ensures SameIdentity(s, Request(s, view, f).value)
    ensures forall r :: r in Request(s, view, f).value.completions ==> !r.Identified?
  {
  }

  lemma FinishSpeaksForNobody(s: Session, view: RuntimeView)
    requires forall r :: r in s.completions ==> !r.Identified?
    ensures SameIdentity(s, FinishStable(s, view))
    ensures forall r :: r in FinishStable(s, view).completions ==> !r.Identified?
    ensures FinishConfig(s, view).Ok? ==>
      var done := FinishConfig(s, view).value;
      SameIdentity(s, done) && forall r :: r in done.completions ==> !r.Identified?
  {
    hide CompletedAll, Ascending, ReadyNonces;
    var config, stable := ConditionState(view.version), ConditionState(view.stableThrough);
    BatchIntroducesNobody(Ascending(ReadyNonces(s.configWaits, config)), config, DataOf(view));
    BatchIntroducesNobody(Ascending(ReadyNonces(s.stableWaits, stable)), stable, []);
  }

  /** A session that no one has introduced to, or that is settled on `first`. */
  ghost predicate Settled(l: Ledger, first: Option<Frame>) {
    match first
    case None => !l.session.identified && l.session.senderId == 2 && Introductions(l.sent) == []
    case Some(f) =>
      && f.Identify? && l.session.identified && l.session.peerLocalId == f.localId
      && l.session.senderId == (if f.remoteId != 0 then f.remoteId else 2)
      && Introductions(l.sent) == [Identified(l.session.senderId, f.localId)]
  }

  lemma {:induction false} RunSettles(l: Ledger, events: seq<Event>, first: Option<Frame>)
    requires l.session.completions == [] && Settled(l, first) && Run(l, events).Ok?
    ensures Settled(Run(l, events).value, if first.Some? then first else FirstIdentify(events))
    ensures forall e :: e in events ==> Consistent(Run(l, events).value.session, e.frame)
    decreases |events|
  {
    hide Turn, Introductions;
    if events != [] {
      var next, f := Turn(l, events[0]).value, events[0].frame;
      TurnIdentity(l, events[0]);
      RunDrains(l, [events[0]]);
      RunOne(l, events[0]);
      var settled := if first.Some? then first else if f.Identify? then Some(f) else None;
      assert Settled(next, settled);
      RunSettles(next, events[1..], settled);
      assert Consistent(Run(l, events).value.session, f);
    }
  }

  /** Over every run the session introduces itself once, to the first peer that
      introduces itself, under the sender id it then keeps; every later
      introduction agrees with that one. */
  lemma IdentityIsSettled(events: seq<Event>, more: seq<Event>)
    requires Run(NEW_CONNECTION, events + more).Ok?
    ensures Run(NEW_CONNECTION, events).Ok?
    ensures var l, later := Run(NEW_CONNECTION, events).value, Run(NEW_CONNECTION, events + more).value;
      && Settled(l, FirstIdentify(events)) && Settled(later, FirstIdentify(events + more))
      && (l.session.identified ==> SameIdentity(l.session, later.session))
      && forall e :: e in events + more ==> Consistent(later.session, e.frame)
  {
    hide Run, Introductions;
    RunAppend(NEW_CONNECTION, events, more);
    NewConnectionSettled();
    RunSettles(NEW_CONNECTION, events, None);
    RunSettles(NEW_CONNECTION, events + more, None);
    if FirstIdentify(events).Some? { FirstIdentifyAppend(events, more); }
  }

  lemma NewConnectionSettled()
    ensures Settled(NEW_CONNECTION, None)
  {
  }

  lemma {:induction false} FirstIdentifyAppend(events: seq<Event>, more: seq<Event>)
    requires FirstIdentify(events).Some?
    ensures FirstIdentify(events + more) == FirstIdentify(events)
  {
    assert (events + more)[1..] == events[1..] + more;
    if !events[0].frame.Identify? { FirstIdentifyAppend(events[1..], more); }
  }

  // ------------------------------------------------------------- counting the waits

  /** A wait for one of the two HyperDex conditions. */
  predicate AsksToWait(f: Frame) { f.CondWait? && f.target == "hyperdex" && (f.condition == "config" || f.condition == "stable") }

  /** A wait for something else that gets an answer: the replicant's own
      conditions if their state is reached, unknown ones always. */
  predicate AnsweredOtherwise(f: Frame) {
    f.CondWait? && !AsksToWait(f)
    && (f.target == "replicant" && f.condition == "configuration" ==> f.state <= ConditionState(0))
    && (f.target == "replicant" && f.condition == "tick" ==> f.state <= LEGACY_REPLICANT_TICK_STATE)
  }

  /** Where waits of the frame's kind are kept, and the state reached for them. */
  function PendingFor(s: Session, f: Frame): map<u64, u64>
    requires f.CondWait?
  {
    if f.condition == "config" then s.configWaits else s.stableWaits
  }

  function ReachedFor(view: RuntimeView, f: Frame): u64
    requires f.CondWait?
  {
    ConditionState(if f.condition == "config" then view.version else view.stableThrough)
  }

  /** The frame files a wait under a nonce that is pending in the same map. */
  predicate Overwrites(s: Session, e: Event) {
    AsksToWait(e.frame) && e.frame.state > ReachedFor(e.view, e.frame) && e.frame.nonce in PendingFor(s, e.frame)
  }

  function One(b: bool): nat { if b then 1 else 0 }

  function Asked(events: seq<Event>, nonce: u64): nat {
    if events == [] then 0
    else One(AsksToWait(events[0].frame) && events[0].frame.nonce == nonce) + Asked(events[1..], nonce)
  }

  function OtherAnswers(events: seq<Event>, nonce: u64): nat {
    if events == [] then 0
    else One(AnsweredOtherwise(events[0].frame) && events[0].frame.nonce == nonce) + OtherAnswers(events[1..], nonce)
  }

  function Overwritten(l: Ledger, events: seq<Event>, nonce: u64): nat
    requires Run(l, events).Ok?
    decreases |events|
  {
    if events == [] then 0
    else One(Overwrites(l.session, events[0]) && events[0].frame.nonce == nonce)
         + Overwritten(Turn(l, events[0]).value, events[1..], nonce)
  }

  /** The replies to waits under a nonce. */
  function Answers(sent: seq<Reply>, nonce: u64): nat {
    if sent == [] then 0
    else One(sent[0].ConditionDone? && sent[0].nonce == nonce) + Answers(sent[1..], nonce)
  }

  function Pending(s: Session, nonce: u64): nat { One(nonce in s.configWaits) + One(nonce in s.stableWaits) }

  lemma {:induction false} AnswersConcat(a: seq<Reply>, b: seq<Reply>, nonce: u64)
    ensures Answers(a + b, nonce) == Answers(a, nonce) + Answers(b, nonce)
  {
    if a == [] {
      assert a + b == b;
    } else {
      assert (a + b)[1..] == a[1..] + b;
      AnswersConcat(a[1..], b, nonce);
    }
  }

  lemma NoAnswerYet(nonce: u64)
    ensures Answers([], nonce) == 0
  {
  }

  lemma OneAnswer(reply: Reply, nonce: u64)
    ensures Answers([reply], nonce) == One(reply.ConditionDone? && reply.nonce == nonce)
  {
    assert Answers([reply][1..], nonce) == 0;
  }

  lemma {:induction false} BatchAnswers(nonces: seq<u64>, state: u64, data: Bytes, nonce: u64)
    requires Distinct(nonces)
    ensures Answers(CompletedAll(nonces, state, data), nonce) == One(nonce in nonces)
    ensures forall r :: r in CompletedAll(nonces, state, data) ==>
      r.ConditionDone? && r.nonce in nonces && r.status == Success && r.state == state
  {
    if nonces != [] {
      assert nonces == [nonces[0]] + nonces[1..];
      assert nonces[0] !in nonces[1..];
      BatchAnswers(nonces[1..], state, data, nonce);
    }
  }

  /** What a session owes and has queued under a nonce. */
  function Weight(s: Session, nonce: u64): nat { Answers(s.completions, nonce) + Pending(s, nonce) }

  /** Completing the ready waits of one kind only moves them. */
  lemma BatchKeepsWeight(s: Session, view: RuntimeView, nonce: u64)
    ensures Weight(FinishStable(s, view), nonce) == Weight(s, nonce)
    ensures FinishConfig(s, view).Ok? ==> Weight(FinishConfig(s, view).value, nonce) == Weight(s, nonce)
  {
    hide CompletedAll, Ascending, Answers;
    var stable, config := ConditionState(view.stableThrough), ConditionState(view.version);
    BatchCount(s.completions, s.stableWaits, stable, [], nonce);
    BatchCount(s.completions, s.configWaits, config, DataOf(view), nonce);
  }

  lemma BatchCount(queued: seq<Reply>, waits: map<u64, u64>, state: u64, data: Bytes, nonce: u64)
    ensures var ready := ReadyNonces(waits, state);
      Answers(queued + CompletedAll(Ascending(ready), state, data), nonce) + One(nonce in waits - ready)
      == Answers(queued, nonce) + One(nonce in waits)
  {
    hide CompletedAll, Ascending, Answers;
    var ready := ReadyNonces(waits, state);
    AscendingFacts(ready);
    AnswersConcat(queued, CompletedAll(Ascending(ready), state, data), nonce);
    BatchAnswers(Ascending(ready), state, data, nonce);
  }

  lemma QueueWeight(s: Session, reply: Reply, nonce: u64)
    ensures Weight(Queue(s, reply), nonce) == Weight(s, nonce) + One(reply.ConditionDone? && reply.nonce == nonce)
  {
    hide Answers;
    AnswersConcat(s.completions, [reply], nonce);
    OneAnswer(reply, nonce);
  }

  /** A request adds what it asks for, less what it overwrites. */
  lemma RequestWeight(s: Session, e: Event, nonce: u64)
    requires IsRequest(e.frame) && Request(s, e.view, e.frame).Ok?
    ensures var mine := e.frame.nonce == nonce;
      Weight(Request(s, e.view, e.frame).value, nonce) + One(Overwrites(s, e) && mine)
      == Weight(s, nonce) + One(AsksToWait(e.frame) && mine) + One(AnsweredOtherwise(e.frame) && mine)
  {
    hide Answers;
    if e.frame.CondWait? {
      if AsksToWait(e.frame) { WaitWeight(s, e, nonce); } else { OtherWaitWeight(s, e, nonce); }
    } else {
      var after := Request(s, e.view, e.frame).value;
      var reply := after.completions[|s.completions|];
      assert after.completions == Queue(s, reply).completions;
      QueueWeight(s, reply, nonce);
    }
  }

  lemma WaitWeight(s: Session, e: Event, nonce: u64)
    requires AsksToWait(e.frame) && WaitForCondition(s, e.view, e.frame).Ok?
    ensures var mine := e.frame.nonce == nonce;
      Weight(WaitForCondition(s, e.view, e.frame).value, nonce) + One(Overwrites(s, e) && mine) == Weight(s, nonce) + One(mine)
  {
    hide Answers;
    var after := WaitForCondition(s, e.view, e.frame).value;
    if e.frame.state <= ReachedFor(e.view, e.frame) {
      var reply := after.completions[|s.completions|];
      assert after == Queue(s, reply);
      QueueWeight(s, reply, nonce);
    }
  }

  lemma OtherWaitWeight(s: Session, e: Event, nonce: u64)
    requires e.frame.CondWait? && !AsksToWait(e.frame) && WaitForCondition(s, e.view, e.frame).Ok?
    ensures Weight(WaitForCondition(s, e.view, e.frame).value, nonce)
            == Weight(s, nonce) + One(AnsweredOtherwise(e.frame) && e.frame.nonce == nonce)
  {
    hide Weight;
    var after := WaitForCondition(s, e.view, e.frame).value;
    if AnsweredOtherwise(e.frame) {
      var reply := after.completions[|s.completions|];
      assert after == Queue(s, reply);
      QueueWeight(s, reply, nonce);
    }
  }

  /** One turn's account of a nonce. */
  lemma TurnCounts(l: Ledger, e: Event, nonce: u64)
    requires l.session.completions == [] && Turn(l, e).Ok?
    ensures var after, mine := Turn(l, e).value, e.frame.CondWait? && e.frame.nonce == nonce;
      Answers(after.sent, nonce) + Pending(after.session, nonce) + One(Overwrites(l.session, e) && mine)
      == Answers(l.sent, nonce) + Pending(l.session, nonce)
         + One(AsksToWait(e.frame) && mine) + One(AnsweredOtherwise(e.frame) && mine)
  {
    hide Answers, Request, FinishConfig, FinishStable, Overwrites, AsksToWait, AnsweredOtherwise;
    var s, f := l.session, e.frame;
    var after := Handle(s, e.view, f).value;
    AnswersConcat(l.sent, after.completions, nonce);
    NoAnswerYet(nonce);
    if IsRequest(f) {
      var requested := Request(s, e.view, f).value;
      RequestWeight(s, e, nonce);
      BatchKeepsWeight(requested, ViewAfter(e.view, f), nonce);
      BatchKeepsWeight(FinishConfig(requested, ViewAfter(e.view, f)).value, ViewAfter(e.view, f), nonce);
      NotAWait(s, e);
    } else {
      NotAWait(s, e);
      if after.completions != [] {
        assert after.completions == [after.completions[0]];
        OneAnswer(after.completions[0], nonce);
      }
    }
  }

  lemma NotAWait(s: Session, e: Event)
    ensures !e.frame.CondWait? ==> !Overwrites(s, e) && !AsksToWait(e.frame) && !AnsweredOtherwise(e.frame)
  {
  }

  /** Conservation: over every run that no frame ends, every wait asked for is
      answered, pending or overwritten, whatever nonces the peer uses. Replies to
      waits for other conditions are counted apart. */
  lemma {:induction false} WaitsAreCounted(l: Ledger, events: seq<Event>, nonce: u64)
    requires l.session.completions == [] && Run(l, events).Ok?
    ensures var after := Run(l, events).value;
      Answers(l.sent, nonce) + Pending(l.session, nonce) + Asked(events, nonce) + OtherAnswers(events, nonce)
      == Answers(after.sent, nonce) + Pending(after.session, nonce) + Overwritten(l, events, nonce)
    decreases |events|
  {
    hide Turn, Answers, Pending, Overwrites, AsksToWait, AnsweredOtherwise;
    if events != [] {
      var next := Turn(l, events[0]).value;
      TurnCounts(l, events[0], nonce);
      NotAWait(l.session, events[0]);
      RunOne(l, events[0]);
      RunDrains(l, [events[0]]);
      WaitsAreCounted(next, events[1..], nonce);
    }
  }

  /** Every wait under every nonce is answered or still pending. */
  ghost predicate NothingLost(events: seq<Event>)
    requires Run(NEW_CONNECTION, events).Ok?
  {
    var l := Run(NEW_CONNECTION, events).value;
    forall nonce: u64 ::
      Asked(events, nonce) + OtherAnswers(events, nonce) == Answers(l.sent, nonce) + Pending(l.session, nonce)
  }

  ghost predicate NothingOverwritten(l: Ledger, events: seq<Event>)
    requires Run(l, events).Ok?
    decreases |events|
  {
    events == []
    || (!Overwrites(l.session, events[0]) && NothingOverwritten(Turn(l, events[0]).value, events[1..]))
  }

  lemma {:induction false} OverwrittenZero(l: Ledger, events: seq<Event>)
    requires Run(l, events).Ok?
    ensures NothingOverwritten(l, events) <==> forall nonce: u64 :: Overwritten(l, events, nonce) == 0
    decreases |events|
  {
    hide Turn;
    if events != [] {
      var next := Turn(l, events[0]).value;
      OverwrittenZero(next, events[1..]);
      if Overwrites(l.session, events[0]) {
        assert Overwritten(l, events, events[0].frame.nonce) > 0;
      } else if NothingOverwritten(next, events[1..]) {
        forall nonce: u64 ensures Overwritten(l, events, nonce) == 0 {
          assert Overwritten(next, events[1..], nonce) == 0;
        }
      } else {
        var nonce: u64 :| Overwritten(next, events[1..], nonce) != 0;
        assert Overwritten(l, events, nonce) != 0;
      }
    }
  }

  /** A connection loses a wait exactly if some frame files one under a nonce
      that is pending in the same map. */
  lemma NothingLostExactly(events: seq<Event>)
    requires Run(NEW_CONNECTION, events).Ok?
    ensures NothingLost(events) <==> NothingOverwritten(NEW_CONNECTION, events)
  {
    hide Run, Asked, OtherAnswers, Overwritten, NothingOverwritten;
    OverwrittenZero(NEW_CONNECTION, events);
    var l := Run(NEW_CONNECTION, events).value;
    forall nonce: u64
      ensures Overwritten(NEW_CONNECTION, events, nonce) == 0 <==>
        Asked(events, nonce) + OtherAnswers(events, nonce) == Answers(l.sent, nonce) + Pending(l.session, nonce)
    {
      WaitsAreCounted(NEW_CONNECTION, events, nonce);
      NoAnswerYet(nonce);
    }
    if NothingOverwritten(NEW_CONNECTION, events) {
      forall nonce: u64
        ensures Asked(events, nonce) + OtherAnswers(events, nonce) == Answers(l.sent, nonce) + Pending(l.session, nonce)
      {
        assert Overwritten(NEW_CONNECTION, events, nonce) == 0;
      }
    } else {
      var nonce: u64 :| Overwritten(NEW_CONNECTION, events, nonce) != 0;
      assert Asked(events, nonce) + OtherAnswers(events, nonce) != Answers(l.sent, nonce) + Pending(l.session, nonce);
    }
  }

  // ------------------------------------------------------------ never early, never unasked

  /** A reply that is right for a wait. */
  predicate Serves(reply: Reply, f: Frame)
    requires reply.ConditionDone?
  {
    f.CondWait? && f.nonce == reply.nonce && (AsksToWait(f) ==> reply.status == Success && reply.state >= f.state)
  }

  predicate ServesOne(reply: Reply, asked: set<Frame>) {
    reply.ConditionDone? ==> exists f :: f in asked && Serves(reply, f)
  }

  /** The frame that a pending wait was asked for with. */
  predicate FiledBy(f: Frame, condition: string, nonce: u64, state: u64) {
    f.CondWait? && f.target == "hyperdex" && f.condition == condition && f.nonce == nonce && f.state == state
  }

  predicate WaitAsked(condition: string, nonce: u64, state: u64, asked: set<Frame>) {
    exists f :: f in asked && FiledBy(f, condition, nonce, state)
  }

  /** Nothing is pending or answered that was not asked for. */
  ghost predicate Justified(s: Session, sent: seq<Reply>, asked: set<Frame>) {
    && (forall n :: n in s.configWaits ==> WaitAsked("config", n, s.configWaits[n], asked))
    && (forall n :: n in s.stableWaits ==> WaitAsked("stable", n, s.stableWaits[n], asked))
    && (forall r :: r in sent ==> ServesOne(r, asked))
  }

  function Frames(events: seq<Event>): set<Frame> { set e | e in events :: e.frame }

  lemma JustifiedByMore(s: Session, sent: seq<Reply>, asked: set<Frame>, more: set<Frame>)
    requires Justified(s, sent, asked) && asked <= more
    ensures Justified(s, sent, more)
  {
    hide Serves, FiledBy;
    forall r | r in sent && r.ConditionDone? ensures ServesOne(r, more) {
      assert ServesOne(r, asked);
      var f :| f in asked && Serves(r, f);
      assert f in more;
    }
    forall n | n in s.configWaits ensures WaitAsked("config", n, s.configWaits[n], more) {
      var f :| f in asked && FiledBy(f, "config", n, s.configWaits[n]);
      assert f in more;
    }
    forall n | n in s.stableWaits ensures WaitAsked("stable", n, s.stableWaits[n], more) {
      var f :| f in asked && FiledBy(f, "stable", n, s.stableWaits[n]);
      assert f in more;
    }
  }

  /** Completed waits were pending, and their state is reached. */
  lemma BatchServes(condition: string, waits: map<u64, u64>, state: u64, data: Bytes, asked: set<Frame>)
    requires condition == "config" || condition == "stable"
    requires forall n :: n in waits ==> WaitAsked(condition, n, waits[n], asked)
    ensures forall r :: r in CompletedAll(Ascending(ReadyNonces(waits, state)), state, data) ==> ServesOne(r, asked)
  {
    hide CompletedAll, Ascending;
    var ready := ReadyNonces(waits, state);
    var batch := CompletedAll(Ascending(ready), state, data);
    AscendingFacts(ready);
    BatchAnswers(Ascending(ready), state, data, 0);
    forall r | r in batch ensures ServesOne(r, asked) {
      assert r.nonce in ready && WaitAsked(condition, r.nonce, waits[r.nonce], asked);
      var f :| f in asked && FiledBy(f, condition, r.nonce, waits[r.nonce]);
      assert Serves(r, f);
    }
  }

  lemma FinishJustified(s: Session, view: RuntimeView, sent: seq<Reply>, asked: set<Frame>)
    requires Justified(s, sent + s.completions, asked)
    ensures Justified(FinishStable(s, view), sent + FinishStable(s, view).completions, asked)
    ensures FinishConfig(s, view).Ok? ==>
      Justified(FinishConfig(s, view).value, sent + FinishConfig(s, view).value.completions, asked)
  {
    hide CompletedAll, Ascending, ServesOne, WaitAsked, ReadyNonces;
    var stable, config := ConditionState(view.stableThrough), ConditionState(view.version);
    BatchServes("stable", s.stableWaits, stable, [], asked);
    BatchServes("config", s.configWaits, config, DataOf(view), asked);
    var done := FinishStable(s, view);
    forall r | r in sent + done.completions ensures ServesOne(r, asked) {
      if r !in done.completions { assert r in sent + s.completions; }
    }
    if FinishConfig(s, view).Ok? {
      var done := FinishConfig(s, view).value;
      forall r | r in sent + done.completions ensures ServesOne(r, asked) {
        if r !in done.completions { assert r in sent + s.completions; }
      }
    }
  }

  lemma RequestJustified(s: Session, e: Event, sent: seq<Reply>, asked: set<Frame>)
    requires Justified(s, sent + s.completions, asked) && e.frame in asked
    requires IsRequest(e.frame) && Request(s, e.view, e.frame).Ok?
    ensures var after := Request(s, e.view, e.frame).value; Justified(after, sent + after.completions, asked)
  {
    hide ServesOne, WaitAsked;
    var after := Request(s, e.view, e.frame).value;
    forall r | r in sent + after.completions ensures ServesOne(r, asked) {
      if r in sent + s.completions {
      } else {
        RequestServes(s, e, r, asked);
      }
    }
    if AsksToWait(e.frame) { FiledIsAsked(e.frame, asked); }
  }

  lemma FiledIsAsked(f: Frame, asked: set<Frame>)
    requires f in asked && f.CondWait? && f.target == "hyperdex"
    ensures WaitAsked(f.condition, f.nonce, f.state, asked)
  {
    assert FiledBy(f, f.condition, f.nonce, f.state);
  }

  lemma RequestServes(s: Session, e: Event, r: Reply, asked: set<Frame>)
    requires e.frame in asked && IsRequest(e.frame) && Request(s, e.view, e.frame).Ok?
    requires r in Request(s, e.view, e.frame).value.completions && r !in s.completions
    ensures ServesOne(r, asked)
  {
    if r.ConditionDone? { assert Serves(r, e.frame); }
  }

  lemma TurnJustified(l: Ledger, e: Event, asked: set<Frame>)
    requires l.session.completions == [] && Turn(l, e).Ok? && Justified(l.session, l.sent, asked)
    ensures Justified(Turn(l, e).value.session, Turn(l, e).value.sent, asked + {e.frame})
  {
    hide Justified, Request, FinishConfig, FinishStable;
    var s, f, now := l.session, e.frame, asked + {e.frame};
    JustifiedByMore(s, l.sent, asked, now);
    assert l.sent + s.completions == l.sent;
    var done := Handle(s, e.view, f).value;
    if IsRequest(f) {
      var requested := Request(s, e.view, f).value;
      RequestJustified(s, e, l.sent, now);
      FinishJustified(requested, ViewAfter(e.view, f), l.sent, now);
      FinishJustified(FinishConfig(requested, ViewAfter(e.view, f)).value, ViewAfter(e.view, f), l.sent, now);
    } else {
      OtherFramesJustified(s, e, l.sent, now);
    }
    JustifiedDrained(done, l.sent + done.completions, now);
  }

  lemma OtherFramesJustified(s: Session, e: Event, sent: seq<Reply>, asked: set<Frame>)
    requires s.completions == [] && Justified(s, sent, asked) && !IsRequest(e.frame) && Handle(s, e.view, e.frame).Ok?
    ensures var after := Handle(s, e.view, e.frame).value; Justified(after, sent + after.completions, asked)
  {
    hide WaitAsked;
    var after := Handle(s, e.view, e.frame).value;
    forall r | r in sent + after.completions ensures ServesOne(r, asked) { if r in sent {} }
  }

  lemma JustifiedDrained(s: Session, sent: seq<Reply>, asked: set<Frame>)
    requires Justified(s, sent, asked)
    ensures Justified(s.(completions := []), sent, asked)
  {
    hide WaitAsked, ServesOne;
  }

  lemma {:induction false} RunJustified(l: Ledger, events: seq<Event>, asked: set<Frame>)
    requires l.session.completions == [] && Run(l, events).Ok? && Justified(l.session, l.sent, asked)
    ensures Justified(Run(l, events).value.session, Run(l, events).value.sent, asked + Frames(events))
    decreases |events|
  {
    hide Turn, Justified;
    if events == [] {
      assert asked + Frames(events) == asked;
    } else {
      TurnJustified(l, events[0], asked);
      RunOne(l, events[0]);
      RunDrains(l, [events[0]]);
      RunJustified(Turn(l, events[0]).value, events[1..], asked + {events[0].frame});
      assert events == [events[0]] + events[1..];
      assert asked + {events[0].frame} + Frames(events[1..]) == asked + Frames(events);
    }
  }

  /** Over every run each pending wait was asked for with that state, and each
      answer answers a wait that was asked for, with success only once its state
      was reached. */
  lemma AnswersAreJustified(events: seq<Event>)
    requires Run(NEW_CONNECTION, events).Ok?
    ensures var l := Run(NEW_CONNECTION, events).value; Justified(l.session, l.sent, Frames(events))
  {
    RunJustified(NEW_CONNECTION, events, {});
    assert {} + Frames(events) == Frames(events);
  }

  // ------------------------------------------------------------------- fresh nonces

  /** The peer uses a nonce for one wait only. */
  predicate FreshNonces(events: seq<Event>) {
    forall i, j :: 0 <= i < j < |events| && events[i].frame.CondWait? && events[j].frame.CondWait? ==>
      events[i].frame.nonce != events[j].frame.nonce
  }

  lemma {:induction false} CountsUnder(events: seq<Event>, i: nat)
    requires FreshNonces(events) && i < |events| && AsksToWait(events[i].frame)
    ensures Asked(events, events[i].frame.nonce) == 1 && OtherAnswers(events, events[i].frame.nonce) == 0
  {
    var nonce := events[i].frame.nonce;
    if i == 0 {
      NotCounted(events[1..], nonce);
    } else {
      CountsUnder(events[1..], i - 1);
    }
  }

  lemma {:induction false} NotCounted(events: seq<Event>, nonce: u64)
    requires forall e :: e in events ==> !(e.frame.CondWait? && e.frame.nonce == nonce)
    ensures Asked(events, nonce) == 0 && OtherAnswers(events, nonce) == 0
  {
    if events != [] {
      assert events[0] in events;
      NotCounted(events[1..], nonce);
    }
  }

  /** What is pending was asked for, so a fresh nonce is not. */
  lemma {:induction false} FreshOverwritesNothing(events: seq<Event>, k: nat)
    requires FreshNonces(events) && k <= |events| && Run(NEW_CONNECTION, events).Ok?
    ensures Run(NEW_CONNECTION, events[..k]).Ok?
    ensures var l := Run(NEW_CONNECTION, events[..k]).value;
      Run(l, events[k..]).Ok? && NothingOverwritten(l, events[k..])
    decreases |events| - k
  {
    hide Run, Overwrites, Turn;
    assert events[..k] + events[k..] == events;
    RunAppend(NEW_CONNECTION, events[..k], events[k..]);
    var l := Run(NEW_CONNECTION, events[..k]).value;
    if k == |events| {
      assert events[k..] == [];
    } else {
      FreshOverwritesNothing(events, k + 1);
      assert events[k..][1..] == events[k + 1..];
      assert events[..k + 1] == events[..k] + [events[k]];
      RunAppend(NEW_CONNECTION, events[..k], [events[k]]);
      RunOne(l, events[k]);
      NotPending(events, k);
    }
  }

  lemma NotPending(events: seq<Event>, k: nat)
    requires FreshNonces(events) && k < |events| && Run(NEW_CONNECTION, events[..k]).Ok?
    ensures !Overwrites(Run(NEW_CONNECTION, events[..k]).value.session, events[k])
  {
    hide Run;
    var l, f := Run(NEW_CONNECTION, events[..k]).value, events[k].frame;
    AnswersAreJustified(events[..k]);
    if AsksToWait(f) {
      NeverAsked(events, k, StateOf(PendingFor(l.session, f), f.nonce));
    }
  }

  lemma NeverAsked(events: seq<Event>, k: nat, state: u64)
    requires FreshNonces(events) && k < |events| && events[k].frame.CondWait?
    ensures !WaitAsked(events[k].frame.condition, events[k].frame.nonce, state, Frames(events[..k]))
  {
    forall g | g in Frames(events[..k]) ensures !FiledBy(g, events[k].frame.condition, events[k].frame.nonce, state) {
      var e :| e in events[..k] && e.frame == g;
      var i :| 0 <= i < k && events[i] == e;
    }
  }

  /** With fresh nonces every wait is either still pending with the state it
      asked for and not answered, or was answered exactly once, with success and
      with a state that had reached it. */
  lemma WaitsAreConserved(events: seq<Event>, i: nat)
    requires FreshNonces(events) && Run(NEW_CONNECTION, events).Ok? && i < |events| && AsksToWait(events[i].frame)
    ensures NothingLost(events)
    ensures var l, f := Run(NEW_CONNECTION, events).value, events[i].frame;
      if f.nonce in PendingFor(l.session, f) then PendingFor(l.session, f)[f.nonce] == f.state && Answers(l.sent, f.nonce) == 0
      else
        && Answers(l.sent, f.nonce) == 1
        && forall r :: r in l.sent && r.ConditionDone? && r.nonce == f.nonce ==> r.status == Success && r.state >= f.state
  {
    hide Run, Asked, OtherAnswers, NothingOverwritten, Justified;
    var l, f := Run(NEW_CONNECTION, events).value, events[i].frame;
    FreshOverwritesNothing(events, 0);
    RunNone();
    assert events[..0] == [] && events[0..] == events;
    NothingLostExactly(events);
    assert Asked(events, f.nonce) + OtherAnswers(events, f.nonce) == Answers(l.sent, f.nonce) + Pending(l.session, f.nonce);
    CountsUnder(events, i);
    AnswersAreJustified(events);
    FreshMeansMine(events, i, l);
  }

  lemma RunNone()
    ensures Run(NEW_CONNECTION, []) == Ok(NEW_CONNECTION)
  {
  }

  /** With fresh nonces, what is pending or answered under a wait's nonce is that
      wait. */
  lemma FreshMeansMine(events: seq<Event>, i: nat, l: Ledger)
    requires FreshNonces(events) && i < |events| && AsksToWait(events[i].frame)
    requires Justified(l.session, l.sent, Frames(events))
    ensures var f := events[i].frame;
      && (f.nonce in l.session.configWaits ==> f.condition == "config" && l.session.configWaits[f.nonce] == f.state)
      && (f.nonce in l.session.stableWaits ==> f.condition == "stable" && l.session.stableWaits[f.nonce] == f.state)
      && forall r :: r in l.sent && r.ConditionDone? && r.nonce == f.nonce ==> r.status == Success && r.state >= f.state
  {
    var f := events[i].frame;
    if f.nonce in l.session.configWaits {
      var g :| g in Frames(events) && FiledBy(g, "config", f.nonce, l.session.configWaits[f.nonce]);
      OneWaitPerNonce(events, i, g);
    }
    if f.nonce in l.session.stableWaits {
      var g :| g in Frames(events) && FiledBy(g, "stable", f.nonce, l.session.stableWaits[f.nonce]);
      OneWaitPerNonce(events, i, g);
    }
    forall r | r in l.sent && r.ConditionDone? && r.nonce == f.nonce ensures r.status == Success && r.state >= f.state {
      assert ServesOne(r, Frames(events));
      var g :| g in Frames(events) && Serves(r, g);
      OneWaitPerNonce(events, i, g);
    }
  }

  lemma OneWaitPerNonce(events: seq<Event>, i: nat, g: Frame)
    requires FreshNonces(events) && i < |events| && events[i].frame.CondWait?
    requires g in Frames(events) && g.CondWait? && g.nonce == events[i].frame.nonce
    ensures g == events[i].frame
  {
    var e :| e in events && e.frame == g;
    var j :| 0 <= j < |events| && events[j] == e;
  }

  // -------------------------------------------------------------- ready waits are served

  /** Nothing that could be answered is left waiting. */
  predicate NoneReady(s: Session, view: RuntimeView) {
    && (forall n :: n in s.configWaits ==> s.configWaits[n] > ConditionState(view.version))
    && (forall n :: n in s.stableWaits ==> s.stableWaits[n] > ConditionState(view.stableThrough))
  }

  /** When a request has been handled, no ready wait is pending: not even one
      that the request itself made ready. */
  lemma RequestLeavesNoneReady(s: Session, view: RuntimeView, f: Frame)
    requires IsRequest(f) && Handle(s, view, f).Ok?
    ensures NoneReady(Handle(s, view, f).value, ViewAfter(view, f))
  {
    hide Request, CompletedAll, Ascending, ReadyNonces;
    var requested, after := Request(s, view, f).value, ViewAfter(view, f);
    RestNotReady(requested.configWaits, ConditionState(after.version));
    RestNotReady(requested.stableWaits, ConditionState(after.stableThrough));
  }

  lemma RestNotReady(waits: map<u64, u64>, state: u64)
    ensures forall n :: n in waits && n !in ReadyNonces(waits, state) ==> waits[n] > state
  {
  }

  /** Every wait under a nonce asks for a state that is reached. */
  predicate AllReached(events: seq<Event>, nonce: u64, view: RuntimeView) {
    forall e :: e in events && AsksToWait(e.frame) && e.frame.nonce == nonce ==> e.frame.state <= ReachedFor(view, e.frame)
  }

  /** After a request that ends a run no wait whose state is reached is pending,
      whoever brought the state about: unless it was overwritten, it was answered. */
  lemma ReachedWaitsAreAnswered(events: seq<Event>, e: Event, nonce: u64)
    requires Run(NEW_CONNECTION, events + [e]).Ok? && IsRequest(e.frame)
    ensures var l, view := Run(NEW_CONNECTION, events + [e]).value, ViewAfter(e.view, e.frame);
      && NoneReady(l.session, view)
      && (AllReached(events + [e], nonce, view) ==>
            Answers(l.sent, nonce) + Overwritten(NEW_CONNECTION, events + [e], nonce)
            == Asked(events + [e], nonce) + OtherAnswers(events + [e], nonce))
  {
    hide Run, Handle, Answers, Overwritten, Asked, OtherAnswers, Justified, NoneReady;
    var all, view := events + [e], ViewAfter(e.view, e.frame);
    var l := Run(NEW_CONNECTION, all).value;
    RunAppend(NEW_CONNECTION, events, [e]);
    var before := Run(NEW_CONNECTION, events).value;
    RunOne(before, e);
    RequestLeavesNoneReady(before.session, e.view, e.frame);
    assert NoneReady(l.session, view) by { DrainedNoneReady(Handle(before.session, e.view, e.frame).value, view); }
    WaitsAreCounted(NEW_CONNECTION, all, nonce);
    assert Answers([], nonce) == 0 by { NoAnswerYet(nonce); }
    AnswersAreJustified(all);
    if AllReached(all, nonce, view) { ReachedNotPending(all, l, nonce, view); }
  }

  lemma DrainedNoneReady(s: Session, view: RuntimeView)
    requires NoneReady(s, view)
    ensures NoneReady(s.(completions := []), view)
  {
  }

  lemma ReachedNotPending(events: seq<Event>, l: Ledger, nonce: u64, view: RuntimeView)
    requires Justified(l.session, l.sent, Frames(events)) && NoneReady(l.session, view) && AllReached(events, nonce, view)
    ensures Pending(l.session, nonce) == 0
  {
    AskedIsReached(events, "config", nonce, StateOf(l.session.configWaits, nonce), view);
    AskedIsReached(events, "stable", nonce, StateOf(l.session.stableWaits, nonce), view);
  }

  function StateOf(waits: map<u64, u64>, nonce: u64): u64 { if nonce in waits then waits[nonce] else 0 }

  lemma AskedIsReached(events: seq<Event>, condition: string, nonce: u64, state: u64, view: RuntimeView)
    requires AllReached(events, nonce, view) && (condition == "config" || condition == "stable")
    ensures WaitAsked(condition, nonce, state, Frames(events)) ==>
      state <= ConditionState(if condition == "config" then view.version else view.stableThrough)
  {
    if WaitAsked(condition, nonce, state, Frames(events)) {
      var f :| f in Frames(events) && FiledBy(f, condition, nonce, state);
      var e :| e in events && e.frame == f;
      assert e.frame.state <= ReachedFor(view, e.frame);
    }
  }

  // ------------------------------------------------------------------- an instance

  const EARLY := RuntimeView(0, 0, Some([]), [])
  const LATE := RuntimeView(9, 9, Some([]), [])

  /** A connection on which one stability wait is pending, under nonce 7. */
  function OnePending(state: u64): Ledger { Ledger(FRESH_SESSION.(stableWaits := map[7 := state]), []) }

  lemma FiledTurn(l: Ledger, before: u64, state: u64)
    requires l == NEW_CONNECTION || l == OnePending(before)
    requires 1 < state && 1 < before
    ensures Turn(l, Event(EARLY, CondWait(7, "hyperdex", "stable", state))) == Ok(OnePending(state))
  {
    hide FinishConfig, FinishStable;
    var f := CondWait(7, "hyperdex", "stable", state);
    var filed := l.session.stableWaits[7 := state];
    assert filed == map[7 := state];
    NothingReady(OnePending(state).session, EARLY);
    assert Request(l.session, EARLY, f) == Ok(OnePending(state).session);
    assert Handle(l.session, EARLY, f) == Ok(OnePending(state).session);
    assert l.sent + [] == [];
  }

  lemma AnsweredTurn()
    ensures var r := Turn(OnePending(6), Event(LATE, GetRobustParams(1)));
      r.Ok? && r.value.sent == [RobustParams(1, 1), Completed(7, 10, [])]
  {
    hide Ascending;
    SevenReady();
    var s := OnePending(6).session;
    var asked := Queue(s, RobustParams(1, 1)).(nextRobustNonce := 2);
    assert ReadyNonces(asked.configWaits, 10) == {};
    assert [RobustParams(1, 1)] + [Completed(7, 10, [])] == [RobustParams(1, 1), Completed(7, 10, [])];
  }

  /** A wait that is asked for twice while it is pending is answered once. */
  lemma ReusedNonceLosesAWait()
    ensures
      var events := [Event(EARLY, CondWait(7, "hyperdex", "stable", 5)), Event(EARLY, CondWait(7, "hyperdex", "stable", 6)),
                     Event(LATE, GetRobustParams(1))];
      Run(NEW_CONNECTION, events).Ok? && Answers(Run(NEW_CONNECTION, events).value.sent, 7) == 1
  {
    hide Turn;
    var e1, e2 := Event(EARLY, CondWait(7, "hyperdex", "stable", 5)), Event(EARLY, CondWait(7, "hyperdex", "stable", 6));
    var e3 := Event(LATE, GetRobustParams(1));
    FiledTurn(NEW_CONNECTION, 5, 5);
    FiledTurn(OnePending(5), 5, 6);
    AnsweredTurn();
    var last := Turn(OnePending(6), e3).value;
    assert [e1, e2, e3][1..] == [e2, e3] && [e2, e3][1..] == [e3] && [e3][1..] == [];
    assert Run(OnePending(6), [e3]) == Run(last, []);
    assert Run(OnePending(5), [e2, e3]) == Run(OnePending(6), [e3]);
    assert last.sent == [RobustParams(1, 1)] + [Completed(7, 10, [])];
    AnswersConcat([RobustParams(1, 1)], [Completed(7, 10, [])], 7);
    OneAnswer(RobustParams(1, 1), 7);
    OneAnswer(Completed(7, 10, []), 7);
  }

  lemma NothingReady(s: Session, view: RuntimeView)
    requires NoneReady(s, view)
    ensures FinishConfig(s, view) == Ok(s) && FinishStable(s, view) == s
  {
    assert ReadyNonces(s.configWaits, ConditionState(view.version)) == {};
    assert ReadyNonces(s.stableWaits, ConditionState(view.stableThrough)) == {};
    assert s.stableWaits - {} == s.stableWaits && s.completions + [] == s.completions;
  }

  lemma SevenReady()
    ensures ReadyNonces(map[7 := 6], 10) == {7} && Ascending({7}) == [7]
    ensures CompletedAll([7], 10, []) == [Completed(7, 10, [])]
  {
    assert Least({7}) == 7;
    assert {7} - {7} == {} && Ascending({}) == [];
    assert [7][1..] == [] && CompletedAll([], 10, []) == [];
  }
}
