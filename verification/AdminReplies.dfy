/** What an admin connection is told, said in its frames and replies and in what
    the runtime showed (crates/server). */
module AdminReplies {
  import opened AdminSession
  import opened Base
  import opened Numbering

  /** What the runtime shows once the frame has had its effect. */
  function ShownAfter(e: Event): RuntimeView {
    match e.frame
    case Call(_, target, function_, _, after) =>
      if target == "hyperdex" && (function_ == "space_add" || function_ == "space_rm") then after else e.view
    case _ => e.view
  }

  /** States run one ahead of versions and stop at the largest number. */
  predicate OnePast(state: u64, version: u64) { state == Min(version + 1, TWO_64 - 1) }

  /** The configuration as it is encoded now, and the state it has. */
  predicate TellsConfig(r: Reply, nonce: u64, view: RuntimeView) {
    && r.ConditionDone? && r.nonce == nonce && r.status == Success
    && OnePast(r.state, view.version) && view.encoded == Some(r.data)
  }

  /** The state that is stable now, and nothing else. */
  predicate TellsStable(r: Reply, nonce: u64, view: RuntimeView) {
    r.ConditionDone? && r.nonce == nonce && r.status == Success && OnePast(r.state, view.stableThrough) && r.data == []
  }

  /** The wait asks for a later state than there is. */
  predicate TooEarly(state: u64, version: u64) { state > Min(version + 1, TWO_64 - 1) }

  /** What a frame itself is answered with. */
  predicate AnswersFrame(replies: seq<Reply>, s: Session, e: Event) {
    match e.frame
    case Identify(_, _) => |replies| <= 1 && forall r :: r in replies ==> r.Identified?
    case Bootstrap => replies == [Bootstrapped(s.senderId, BootstrapConfiguration(s.senderId, e.view.address))]
    case GetRobustParams(nonce) => replies == [RobustParams(nonce, s.nextRobustNonce)]
    case CondWait(nonce, target, condition, state) =>
      if target == "hyperdex" && condition == "config" then
        if TooEarly(state, e.view.version) then replies == [] else |replies| == 1 && TellsConfig(replies[0], nonce, e.view)
      else if target == "hyperdex" && condition == "stable" then
        if TooEarly(state, e.view.stableThrough) then replies == [] else |replies| == 1 && TellsStable(replies[0], nonce, e.view)
      else if target == "replicant" && (condition == "configuration" || condition == "tick") then
        if state > 1 then replies == []
        else replies == [ConditionDone(nonce, Success, 1, if condition == "tick" then []
                                                         else BootstrapConfiguration(s.senderId, e.view.address))]
      else replies == [ConditionDone(nonce, CondNotFound, state, [])]
    case Call(nonce, target, function_, answer, _) =>
      if target != "hyperdex" then replies == [CallDone(nonce, ObjNotFound, [])]
      else if function_ == "space_add" || function_ == "space_rm" then
        answer.Some? && replies == [CallDone(nonce, Success, answer.value)]
      else replies == [CallDone(nonce, FuncNotFound, [])]
    case Undecodable => false
  }

  /** Pending waits that are answered after the frame: each for its nonce, in
      increasing order, and all that are reached unless the frame put another
      wait in their place. */
  predicate AnswersPending(replies: seq<Reply>, waits: map<u64, u64>, version: u64, replaced: set<u64>) {
    && (forall i, j :: 0 <= i < j < |replies| && replies[i].ConditionDone? && replies[j].ConditionDone? ==>
          replies[i].nonce < replies[j].nonce)
    && (forall r :: r in replies ==> r.ConditionDone? && r.nonce in waits && !TooEarly(waits[r.nonce], version))
    && (forall n :: n in waits && n !in replaced && !TooEarly(waits[n], version) ==>
          exists r :: r in replies && r.ConditionDone? && r.nonce == n)
  }

  function Replaced(e: Event, condition: string): set<u64> {
    if e.frame.CondWait? && e.frame.target == "hyperdex" && e.frame.condition == condition then {e.frame.nonce} else {}
  }

  predicate AllTellConfig(replies: seq<Reply>, view: RuntimeView) {
    forall r :: r in replies ==> r.ConditionDone? && TellsConfig(r, r.nonce, view)
  }

  predicate AllTellStable(replies: seq<Reply>, view: RuntimeView) {
    forall r :: r in replies ==> r.ConditionDone? && TellsStable(r, r.nonce, view)
  }

  /** Everything one frame is followed by: its own answer, then configurations for
      waits that have become ready, then stable states. */
  ghost predicate RightReplies(replies: seq<Reply>, s: Session, e: Event) {
    exists own: seq<Reply>, configs: seq<Reply>, stables: seq<Reply> :: RightParts(replies, own, configs, stables, s, e)
  }

  ghost predicate RightParts(replies: seq<Reply>, own: seq<Reply>, configs: seq<Reply>, stables: seq<Reply>, s: Session, e: Event) {
    && replies == own + configs + stables
    && AnswersFrame(own, s, e)
    && AllTellConfig(configs, ShownAfter(e)) && AllTellStable(stables, ShownAfter(e))
    && (if IsRequest(e.frame) then
          && AnswersPending(configs, s.configWaits, ShownAfter(e).version, Replaced(e, "config"))
          && AnswersPending(stables, s.stableWaits, ShownAfter(e).stableThrough, Replaced(e, "stable"))
        else configs == [] && stables == [])
  }

  // ------------------------------------------------------------------- one frame

  /** The completions of a batch, one by one. */
  lemma {:induction false} BatchAt(nonces: seq<u64>, state: u64, data: Bytes, i: nat)
    requires i < |nonces|
    ensures |CompletedAll(nonces, state, data)| == |nonces|
    ensures CompletedAll(nonces, state, data)[i] == ConditionDone(nonces[i], Success, state, data)
  {
    if |nonces| > 1 { BatchAt(nonces[1..], state, data, if i == 0 then 0 else i - 1); }
  }

  lemma BatchSize(nonces: seq<u64>, state: u64, data: Bytes)
    ensures |CompletedAll(nonces, state, data)| == |nonces|
  {
    if nonces != [] { BatchAt(nonces, state, data, 0); }
  }

  lemma BatchAnswersPending(waits: map<u64, u64>, before: map<u64, u64>, version: u64, data: Bytes, replaced: set<u64>)
    requires forall n :: n in waits && !TooEarly(waits[n], version) ==> n in before && before[n] == waits[n]
    requires forall n :: n in before && n !in replaced ==> n in waits && waits[n] == before[n]
    ensures var state := ConditionState(version);
      var batch := CompletedAll(Ascending(ReadyNonces(waits, state)), state, data);
      && AnswersPending(batch, before, version, replaced)
      && forall r :: r in batch ==> r.ConditionDone? && r.status == Success && OnePast(r.state, version) && r.data == data
  {
    hide CompletedAll, Ascending;
    var state := ConditionState(version);
    var ready := ReadyNonces(waits, state);
    var nonces := Ascending(ready);
    var batch := CompletedAll(nonces, state, data);
    AscendingFacts(ready);
    BatchSize(nonces, state, data);
    forall i | 0 <= i < |nonces| ensures batch[i] == ConditionDone(nonces[i], Success, state, data) && nonces[i] in ready {
      BatchAt(nonces, state, data, i);
      assert nonces[i] in nonces;
    }
    forall n | n in before && n !in replaced && !TooEarly(before[n], version)
      ensures exists r :: r in batch && r.ConditionDone? && r.nonce == n
    {
      assert n in ready && n in nonces;
      var i :| 0 <= i < |nonces| && nonces[i] == n;
      assert batch[i] in batch;
    }
  }

  /** What a request puts into the session before ready waits are looked for. */
  lemma RequestAnswers(s: Session, e: Event)
    requires s.completions == [] && IsRequest(e.frame) && Request(s, e.view, e.frame).Ok?
    ensures AnswersFrame(Request(s, e.view, e.frame).value.completions, s, e)
  {
    hide BootstrapConfiguration;
  }

  lemma RequestFiles(s: Session, e: Event)
    requires IsRequest(e.frame) && Request(s, e.view, e.frame).Ok?
    ensures var after, shown := Request(s, e.view, e.frame).value, ShownAfter(e);
      && Files(after.configWaits, s.configWaits, shown.version, Replaced(e, "config"))
      && Files(after.stableWaits, s.stableWaits, shown.stableThrough, Replaced(e, "stable"))
    ensures ViewAfter(e.view, e.frame) == ShownAfter(e)
  {
    hide BootstrapConfiguration;
  }

  /** A wait that is filed is one that cannot be answered yet. */
  ghost predicate Files(waits: map<u64, u64>, before: map<u64, u64>, version: u64, replaced: set<u64>) {
    && (forall n :: n in waits && !TooEarly(waits[n], version) ==> n in before && before[n] == waits[n])
    && (forall n :: n in before && n !in replaced ==> n in waits && waits[n] == before[n])
  }

  lemma FrameReplies(s: Session, e: Event)
    requires s.completions == [] && Handle(s, e.view, e.frame).Ok?
    ensures RightReplies(Handle(s, e.view, e.frame).value.completions, s, e)
  {
    if IsRequest(e.frame) {
      RequestReplies(s, e);
    } else {
      var own := Handle(s, e.view, e.frame).value.completions;
      assert RightParts(own, own, [], [], s, e);
    }
  }

  lemma RequestReplies(s: Session, e: Event)
    requires s.completions == [] && IsRequest(e.frame) && Handle(s, e.view, e.frame).Ok?
    ensures RightReplies(Handle(s, e.view, e.frame).value.completions, s, e)
  {
    hide Request, AnswersFrame, AnswersPending, CompletedAll, Ascending, ReadyNonces, ConditionState, OnePast;
    var requested, shown := Request(s, e.view, e.frame).value, ShownAfter(e);
    RequestAnswers(s, e);
    RequestFiles(s, e);
    FinishConfigCases(requested, shown);
    var config, stable := ConditionState(shown.version), ConditionState(shown.stableThrough);
    var configs := CompletedAll(Ascending(ReadyNonces(requested.configWaits, config)), config, DataOf(shown));
    var stables := CompletedAll(Ascending(ReadyNonces(requested.stableWaits, stable)), stable, []);
    BatchAnswersPending(requested.configWaits, s.configWaits, shown.version, DataOf(shown), Replaced(e, "config"));
    BatchAnswersPending(requested.stableWaits, s.stableWaits, shown.stableThrough, [], Replaced(e, "stable"));
    if shown.encoded.None? { assert configs == [] by { NothingCompleted(config); } }
    assert RightParts(requested.completions + configs + stables, requested.completions, configs, stables, s, e);
  }

  lemma NothingCompleted(state: u64)
    ensures CompletedAll([], state, []) == []
  {
  }

  // ------------------------------------------------------------------- a whole run

  /** Over every run, every frame is followed by the right replies and no others. */
  lemma RepliesAreRight(events: seq<Event>, k: nat)
    requires k < |events| && Run(NEW_CONNECTION, events[..k + 1]).Ok?
    ensures Run(NEW_CONNECTION, events[..k]).Ok?
    ensures var before, after := Run(NEW_CONNECTION, events[..k]).value, Run(NEW_CONNECTION, events[..k + 1]).value;
      exists replies :: after.sent == before.sent + replies && RightReplies(replies, before.session, events[k])
  {
    hide Run, Handle, RightReplies;
    assert events[..k + 1] == events[..k] + [events[k]];
    RunAppend(NEW_CONNECTION, events[..k], [events[k]]);
    var before := Run(NEW_CONNECTION, events[..k]).value;
    RunOne(before, events[k]);
    RunDrains(NEW_CONNECTION, events[..k]);
    FrameReplies(before.session, events[k]);
  }

  /** Event `k` brings the answer to the wait that event `j` asked for, with what
      is right for its condition at that time. */
  predicate AnsweredAt(r: Reply, events: seq<Event>, j: nat, k: nat)
    requires j <= k < |events|
  {
    var f := events[j].frame;
    && r.ConditionDone? && f.CondWait? && r.nonce == f.nonce
    && if f.target == "hyperdex" && f.condition == "config" then
         TellsConfig(r, f.nonce, ShownAfter(events[k])) && f.state <= r.state
       else if f.target == "hyperdex" && f.condition == "stable" then
         TellsStable(r, f.nonce, ShownAfter(events[k])) && f.state <= r.state
       else if f.target == "replicant" && (f.condition == "configuration" || f.condition == "tick") then
         j == k && r.status == Success && r.state == 1 && f.state <= 1
       else j == k && r.status == CondNotFound && r.state == f.state && r.data == []
  }

  ghost predicate AnsweredIn(r: Reply, events: seq<Event>) {
    r.ConditionDone? ==> exists j: nat, k: nat :: j <= k < |events| && AnsweredAt(r, events, j, k)
  }

  lemma OwnAnswerAt(own: seq<Reply>, s: Session, events: seq<Event>, k: nat, r: Reply)
    requires k < |events| && AnswersFrame(own, s, events[k]) && r in own && r.ConditionDone?
    ensures AnsweredAt(r, events, k, k)
  {
    hide BootstrapConfiguration;
    if |own| == 1 { assert r == own[0]; }
  }

  lemma PendingAnswerAt(r: Reply, waits: map<u64, u64>, condition: string, events: seq<Event>, k: nat)
    requires k < |events| && r.ConditionDone? && r.nonce in waits && (condition == "config" || condition == "stable")
    requires var shown := ShownAfter(events[k]);
      if condition == "config" then TellsConfig(r, r.nonce, shown) && !TooEarly(waits[r.nonce], shown.version)
      else TellsStable(r, r.nonce, shown) && !TooEarly(waits[r.nonce], shown.stableThrough)
    requires WaitAsked(condition, r.nonce, waits[r.nonce], Frames(events[..k]))
    ensures AnsweredIn(r, events)
  {
    hide ShownAfter;
    var f :| f in Frames(events[..k]) && FiledBy(f, condition, r.nonce, waits[r.nonce]);
    var e :| e in events[..k] && e.frame == f;
    var j :| 0 <= j < k && events[j] == e;
    assert AnsweredAt(r, events, j, k);
  }

  lemma TurnAnswers(replies: seq<Reply>, s: Session, events: seq<Event>, k: nat)
    requires k < |events| && RightReplies(replies, s, events[k])
    requires forall n :: n in s.configWaits ==> WaitAsked("config", n, s.configWaits[n], Frames(events[..k]))
    requires forall n :: n in s.stableWaits ==> WaitAsked("stable", n, s.stableWaits[n], Frames(events[..k]))
    ensures forall r :: r in replies ==> AnsweredIn(r, events)
  {
    hide AnswersFrame, WaitAsked, ShownAfter, TellsConfig, TellsStable, TooEarly, AnsweredAt;
    var own: seq<Reply>, configs: seq<Reply>, stables: seq<Reply> :| RightParts(replies, own, configs, stables, s, events[k]);
    forall r | r in replies && r.ConditionDone? ensures AnsweredIn(r, events) {
      if r in own {
        OwnAnswerAt(own, s, events, k, r);
      } else if r in configs {
        PendingAnswerAt(r, s.configWaits, "config", events, k);
      } else {
        PendingAnswerAt(r, s.stableWaits, "stable", events, k);
      }
    }
  }

  /** Over every run, each answer to a wait carries what the runtime showed after
      the frame it was sent on: the encoded configuration and the state one past
      its version, or no data and one past the stable version; waits for other
      conditions are answered on the spot. */
  lemma {:induction false} AnswersCarryTheirData(events: seq<Event>, k: nat)
    requires k <= |events| && Run(NEW_CONNECTION, events[..k]).Ok?
    ensures forall r :: r in Run(NEW_CONNECTION, events[..k]).value.sent ==> AnsweredIn(r, events)
    decreases k
  {
    hide Run, AnsweredIn, RightReplies, WaitAsked;
    if k == 0 {
      assert events[..0] == [];
      RunNone();
    } else {
      RepliesAreRight(events, k - 1);
      AnswersCarryTheirData(events, k - 1);
      AnswersAreJustified(events[..k - 1]);
      var before, after := Run(NEW_CONNECTION, events[..k - 1]).value, Run(NEW_CONNECTION, events[..k]).value;
      var replies :| after.sent == before.sent + replies && RightReplies(replies, before.session, events[k - 1]);
      TurnAnswers(replies, before.session, events, k - 1);
    }
  }

  // ------------------------------------------------------------------ robust nonces

  function Issued(events: seq<Event>): nat {
    if events == [] then 0 else Issued(events[1..]) + if events[0].frame.GetRobustParams? then 1 else 0
  }

  lemma TurnIssues(s: Session, e: Event)
    requires Handle(s, e.view, e.frame).Ok?
    ensures var after := Handle(s, e.view, e.frame).value.nextRobustNonce;
      after == if e.frame.GetRobustParams? then Min(s.nextRobustNonce + 1, TWO_64 - 1) else s.nextRobustNonce
  {
    hide CompletedAll, Ascending, ReadyNonces, BootstrapConfiguration;
  }

  /** Command nonces count the requests for them, from one on. */
  lemma {:induction false} RobustNoncesCount(l: Ledger, events: seq<Event>)
    requires Run(l, events).Ok?
    ensures Run(l, events).value.session.nextRobustNonce == Min(l.session.nextRobustNonce + Issued(events), TWO_64 - 1)
    decreases |events|
  {
    hide Handle;
    if events != [] {
      TurnIssues(l.session, events[0]);
      RobustNoncesCount(Turn(l, events[0]).value, events[1..]);
    }
  }
}
