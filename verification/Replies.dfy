/**
  Correlation of replies with waiting requests. A request registers a waiter under its message
  id and holds a guard; the listener takes the waiter out and fills its cell; guards, explicit
  removals and the end of the dispatcher take waiters out unfilled. Every label is one atomic step.
 */
module Replies {
  import opened Segments
  import opened Protocol

  /** A one-shot cell: empty, filled, or left by its sender. */
  datatype Cell = Empty | Full(reply: Message) | Hung

  datatype Outcome = Pending | Got(reply: Message) | Closed | GaveUp

  datatype Request = Request(id: Bytes, cell: Cell, outcome: Outcome, guarded: bool)

  datatype State = State(waiters: map<Bytes, nat>, requests: map<nat, Request>, ended: bool)

  datatype Label =
    | Register(request: nat, id: Bytes)
    | Process(reply: Message)
    | Take(request: nat)
    | SeeHung(request: nat)
    | GiveUp(request: nat)
    | DropGuard(request: nat)
    | RemoveWaiter(id: Bytes)
    | DropDispatcher

  const Init: State := State(map[], map[], false)

  predicate Enabled(s: State, l: Label) {
    match l
    case Register(r, id) => !s.ended && r !in s.requests && id !in s.waiters
    case Process(_) => !s.ended
    case Take(r) => r in s.requests && s.requests[r].outcome == Pending && s.requests[r].cell.Full?
    case SeeHung(r) => r in s.requests && s.requests[r].outcome == Pending && s.requests[r].cell.Hung?
    case GiveUp(r) => r in s.requests && s.requests[r].outcome == Pending
    case DropGuard(r) => r in s.requests && s.requests[r].guarded
    case RemoveWaiter(_) => !s.ended
    case DropDispatcher => !s.ended
  }

  function Put(s: State, r: nat, q: Request): State {
    s.(requests := s.requests[r := q])
  }

  /** Drops the sender waiting under `id`, if there is one. */
  function HangUp(s: State, id: Bytes): State {
    if id in s.waiters && s.waiters[id] in s.requests then
      var r := s.waiters[id];
      Put(s, r, s.requests[r].(cell := Hung)).(waiters := s.waiters - {id})
    else s
  }

  /** Guards and replies go by id, not by request. A filled cell whose receiver is gone is as good as hung. */
  function Next(s: State, l: Label): State
    requires Enabled(s, l)
  {
    match l
    case Register(r, id) => Put(s, r, Request(id, Empty, Pending, true)).(waiters := s.waiters[id := r])
    case Process(m) =>
      var id := m.header.messageId;
      if id in s.waiters && s.waiters[id] in s.requests && s.requests[s.waiters[id]].outcome == Pending then
        var r := s.waiters[id];
        Put(s, r, s.requests[r].(cell := Full(m))).(waiters := s.waiters - {id})
      else HangUp(s, id)
    case Take(r) => Put(s, r, s.requests[r].(outcome := Got(s.requests[r].cell.reply)))
    case SeeHung(r) => Put(s, r, s.requests[r].(outcome := Closed))
    case GiveUp(r) => Put(s, r, s.requests[r].(outcome := GaveUp))
    case DropGuard(r) =>
      var s' := HangUp(s, s.requests[r].id);
      Put(s', r, s'.requests[r].(guarded := false))
    case RemoveWaiter(id) => HangUp(s, id)
    case DropDispatcher =>
      State(map[],
            map r | r in s.requests :: if s.requests[r].id in s.waiters && s.waiters[s.requests[r].id] == r
                                       then s.requests[r].(cell := Hung) else s.requests[r],
            true)
  }

  /** Label `i` leads from state `i` to the next. */
  predicate StepAt(states: seq<State>, labels: seq<Label>, i: nat)
    requires i < |labels| && |states| == |labels| + 1
  {
    Enabled(states[i], labels[i]) && states[i + 1] == Next(states[i], labels[i])
  }

  ghost predicate Run(states: seq<State>, labels: seq<Label>) {
    && |states| == |labels| + 1
    && states[0] == Init
    && forall i :: 0 <= i < |labels| ==> StepAt(states, labels, i)
  }

  // --------------------------------------------------------------- invariant

  predicate Waits(s: State, r: nat) {
    r in s.requests && s.requests[r].id in s.waiters && s.waiters[s.requests[r].id] == r
  }

  /** Every waiter is its request's, still empty, under a live guard. */
  ghost predicate WaitersInv(s: State) {
    forall id :: id in s.waiters ==>
      var r := s.waiters[id];
      r in s.requests && s.requests[r].id == id && s.requests[r].guarded && s.requests[r].cell == Empty
  }

  /** A request with an empty cell is still waiting: nobody waits for a sender that is gone. */
  ghost predicate NobodyForgotten(s: State) {
    forall r :: r in s.requests && s.requests[r].cell == Empty ==> Waits(s, r)
  }

  predicate HoldsOwn(q: Request) {
    && (q.cell.Full? ==> q.cell.reply.header.messageId == q.id)
    && (q.outcome.Got? ==> q.cell == Full(q.outcome.reply))
    && (q.outcome == Closed ==> q.cell == Hung)
  }

  ghost predicate Inv(s: State) {
    && WaitersInv(s)
    && NobodyForgotten(s)
    && (forall r :: r in s.requests ==> HoldsOwn(s.requests[r]))
  }

  /** Hanging up on one id leaves every other waiter and request as it was. */
  lemma HangUpKeepsInv(s: State, id: Bytes)
    requires Inv(s)
    ensures Inv(HangUp(s, id)) && id !in HangUp(s, id).waiters
  {
    var s' := HangUp(s, id);
    assert forall r :: r in s.requests && s.requests[r].cell == Empty ==> Waits(s, r);
  }

  lemma ProcessKeepsInv(s: State, m: Message)
    requires Inv(s) && !s.ended
    ensures Inv(Next(s, Process(m)))
  {
    var id := m.header.messageId;
    if id in s.waiters && s.requests[s.waiters[id]].outcome == Pending {
      assert forall r :: r in s.requests && s.requests[r].cell == Empty ==> Waits(s, r);
    } else {
      HangUpKeepsInv(s, id);
    }
  }

  lemma UnguardKeepsInv(s: State, r: nat)
    requires Inv(s) && r in s.requests && s.requests[r].id !in s.waiters
    ensures Inv(Put(s, r, s.requests[r].(guarded := false)))
  {
    assert forall q :: q in s.requests && s.requests[q].cell == Empty ==> Waits(s, q);
  }

  lemma RegisterKeepsInv(s: State, r: nat, id: Bytes)
    requires Inv(s) && Enabled(s, Register(r, id))
    ensures Inv(Next(s, Register(r, id)))
  {
    assert forall q :: q in s.requests && s.requests[q].cell == Empty ==> Waits(s, q);
  }

  lemma DropDispatcherKeepsInv(s: State)
    requires Inv(s) && !s.ended
    ensures Inv(Next(s, DropDispatcher))
  {
    assert forall q :: q in s.requests && s.requests[q].cell == Empty ==> Waits(s, q);
  }

  lemma OutcomeKeepsInv(s: State, l: Label)
    requires Inv(s) && Enabled(s, l) && (l.Take? || l.SeeHung? || l.GiveUp?)
    ensures Inv(Next(s, l))
  {
    assert forall q :: q in s.requests && s.requests[q].cell == Empty ==> Waits(s, q);
  }

  lemma StepKeepsInv(s: State, l: Label)
    requires Inv(s) && Enabled(s, l)
    ensures Inv(Next(s, l))
  {
    match l
    case Process(m) => ProcessKeepsInv(s, m);
    case DropGuard(r) =>
      HangUpKeepsInv(s, s.requests[r].id);
      UnguardKeepsInv(HangUp(s, s.requests[r].id), r);
    case RemoveWaiter(id) => HangUpKeepsInv(s, id);
    case Register(r, id) => RegisterKeepsInv(s, r, id);
    case DropDispatcher => DropDispatcherKeepsInv(s);
    case _ => OutcomeKeepsInv(s, l);
  }

  lemma {:induction false} RunKeepsInv(states: seq<State>, labels: seq<Label>, i: nat)
    requires Run(states, labels) && i < |states|
    ensures Inv(states[i])
  {
    if i > 0 {
      RunKeepsInv(states, labels, i - 1);
      assert StepAt(states, labels, i - 1);
      StepKeepsInv(states[i - 1], labels[i - 1]);
    }
  }

  // ------------------------------------------------------------------ results

  /** Requests are never forgotten, keep their id, and a filled cell is never refilled or emptied. */
  lemma CellsSettle(s: State, l: Label, r: nat)
    requires Inv(s) && Enabled(s, l) && r in s.requests
    ensures r in Next(s, l).requests && Next(s, l).requests[r].id == s.requests[r].id
    ensures s.requests[r].cell != Empty ==> Next(s, l).requests[r].cell == s.requests[r].cell
    ensures s.requests[r].outcome != Pending ==> Next(s, l).requests[r].outcome == s.requests[r].outcome
  {
  }

  /** A filled cell was filled before, or this step processed its reply for the waiting request. */
  lemma FillStep(s: State, l: Label, r: nat)
    requires Inv(s) && Enabled(s, l) && r in Next(s, l).requests && Next(s, l).requests[r].cell.Full?
    ensures
      var cell := Next(s, l).requests[r].cell;
      (r in s.requests && s.requests[r].cell == cell) || (l == Process(cell.reply) && Waits(s, r))
  {
  }

  /** The reply in a request's cell was processed while that very request was waiting under its id. */
  lemma {:induction false} FilledWhileWaiting(states: seq<State>, labels: seq<Label>, i: nat, r: nat)
    requires Run(states, labels) && i < |states| && r in states[i].requests && states[i].requests[r].cell.Full?
    ensures exists k :: 0 <= k < i && labels[k] == Process(states[i].requests[r].cell.reply) && Waits(states[k], r)
  {
    if i > 0 {
      RunKeepsInv(states, labels, i - 1);
      assert StepAt(states, labels, i - 1);
      FillStep(states[i - 1], labels[i - 1], r);
      if r in states[i - 1].requests && states[i - 1].requests[r].cell.Full? {
        FilledWhileWaiting(states, labels, i - 1, r);
      }
    }
  }

  /**
    In every interleaving, the reply a request receives carries the request's own id and was
    processed while it was waiting; once received it stays the only one.
   */
  lemma RepliesAreCorrelated(states: seq<State>, labels: seq<Label>, i: nat, j: nat, r: nat)
    requires Run(states, labels) && i <= j < |states|
    requires r in states[i].requests && states[i].requests[r].outcome.Got?
    ensures states[i].requests[r].outcome.reply.header.messageId == states[i].requests[r].id
    ensures exists k :: 0 <= k < i && labels[k] == Process(states[i].requests[r].outcome.reply) && Waits(states[k], r)
    ensures r in states[j].requests && states[j].requests[r].outcome == states[i].requests[r].outcome
  {
    RunKeepsInv(states, labels, i);
    FilledWhileWaiting(states, labels, i, r);
    OutcomeStays(states, labels, i, j, r);
  }

  lemma {:induction false} OutcomeStays(states: seq<State>, labels: seq<Label>, i: nat, j: nat, r: nat)
    requires Run(states, labels) && i <= j < |states| && r in states[i].requests && states[i].requests[r].outcome != Pending
    ensures r in states[j].requests && states[j].requests[r].outcome == states[i].requests[r].outcome
    decreases j
  {
    if i < j {
      OutcomeStays(states, labels, i, j - 1, r);
      RunKeepsInv(states, labels, j - 1);
      assert StepAt(states, labels, j - 1);
      CellsSettle(states[j - 1], labels[j - 1], r);
    }
  }

  /** In every interleaving, each waiting id belongs to a live guard, and no empty cell is without its waiter. */
  lemma WaitersAreGuarded(states: seq<State>, labels: seq<Label>, i: nat, id: Bytes, r: nat)
    requires Run(states, labels) && i < |states|
    ensures id in states[i].waiters ==>
      exists q :: q in states[i].requests && states[i].requests[q].guarded && states[i].requests[q].id == id
    ensures r in states[i].requests && states[i].requests[r].cell == Empty ==> Waits(states[i], r)
  {
    RunKeepsInv(states, labels, i);
  }

  /** The step takes away the waiter under `id` without filling its cell. */
  predicate Severs(s: State, l: Label, id: Bytes) {
    || l.DropDispatcher?
    || (l.RemoveWaiter? && l.id == id)
    || (l.DropGuard? && l.request in s.requests && s.requests[l.request].id == id)
  }

  /** The request waits for its reply: its cell is empty, and nobody has given up. */
  predicate AwaitsReply(s: State, r: nat, id: Bytes) {
    r in s.requests && s.requests[r].id == id && s.requests[r].cell == Empty && s.requests[r].outcome == Pending
  }

  /** The request will never see a reply. */
  predicate Lost(s: State, r: nat) {
    r in s.requests && (s.requests[r].cell == Hung || (s.requests[r].cell == Empty && s.requests[r].outcome == GaveUp))
  }

  /** The step keeps the request from its reply: its waiter is taken away, or its requester gives up. */
  predicate Spoils(s: State, l: Label, r: nat, id: Bytes) {
    Severs(s, l, id) || l == GiveUp(r)
  }

  predicate Answers(l: Label, id: Bytes) {
    l.Process? && l.reply.header.messageId == id
  }

  lemma SpoilingLoses(s: State, l: Label, r: nat, id: Bytes)
    requires Inv(s) && Enabled(s, l) && AwaitsReply(s, r, id) && Spoils(s, l, r, id)
    ensures Lost(Next(s, l), r)
  {
    assert Waits(s, r);
  }

  lemma OthersLeaveWaiting(s: State, l: Label, r: nat, id: Bytes)
    requires Inv(s) && Enabled(s, l) && AwaitsReply(s, r, id) && !Answers(l, id) && !Spoils(s, l, r, id)
    ensures AwaitsReply(Next(s, l), r, id)
  {
    assert Waits(s, r);
  }

  lemma LostStays(s: State, l: Label, r: nat)
    requires Inv(s) && Enabled(s, l) && Lost(s, r)
    ensures Lost(Next(s, l), r)
  {
  }

  /** A waiting request is lost by exactly the spoiling steps, also by another's guard with the same id; a lost one stays lost. */
  lemma WaitsOrLost(s: State, l: Label, r: nat, id: Bytes, waiting: bool)
    requires Inv(s) && Enabled(s, l) && !Answers(l, id)
    requires if waiting then AwaitsReply(s, r, id) else Lost(s, r)
    ensures if waiting && !Spoils(s, l, r, id) then AwaitsReply(Next(s, l), r, id) else Lost(Next(s, l), r)
  {
    if waiting {
      if Spoils(s, l, r, id) {
        SpoilingLoses(s, l, r, id);
      } else {
        OthersLeaveWaiting(s, l, r, id);
      }
    } else {
      LostStays(s, l, r);
    }
  }

  /** No reply with this id is processed in steps `i` to `j`. */
  predicate NoAnswer(labels: seq<Label>, i: nat, j: nat, id: Bytes)
    requires j <= |labels|
  {
    forall k :: i <= k < j ==> !Answers(labels[k], id)
  }

  /** No step from `i` to `j` keeps the request from its reply. */
  predicate Unspoiled(states: seq<State>, labels: seq<Label>, i: nat, j: nat, r: nat, id: Bytes)
    requires j <= |labels| && j <= |states|
  {
    forall k :: i <= k < j ==> !Spoils(states[k], labels[k], r, id)
  }

  /** Until its reply comes, a request waits as long as nothing spoils it, and is lost from then on. */
  lemma {:induction false} WaitsUntilSpoiled(states: seq<State>, labels: seq<Label>, i: nat, j: nat, r: nat, id: Bytes)
    requires Run(states, labels) && i <= j < |states| && AwaitsReply(states[i], r, id)
    requires NoAnswer(labels, i, j, id)
    ensures if Unspoiled(states, labels, i, j, r, id) then AwaitsReply(states[j], r, id) else Lost(states[j], r)
    decreases j
  {
    if i < j {
      WaitsUntilSpoiled(states, labels, i, j - 1, r, id);
      RunKeepsInv(states, labels, j - 1);
      assert StepAt(states, labels, j - 1);
      WaitsOrLost(states[j - 1], labels[j - 1], r, id, Unspoiled(states, labels, i, j - 1, r, id));
    }
  }

  /**
    In every interleaving, the first reply with a waiting request's id fills the request's cell if
    and only if no step before it gave the request up, ended the dispatcher, removed the id, or
    dropped a guard with that id, whosesoever.
   */
  lemma ReplyArrivesExactly(states: seq<State>, labels: seq<Label>, i: nat, j: nat, r: nat, m: Message)
    requires Run(states, labels) && i <= j < |labels| && labels[j] == Process(m)
    requires AwaitsReply(states[i], r, m.header.messageId)
    requires NoAnswer(labels, i, j, m.header.messageId)
    ensures r in states[j + 1].requests
    ensures states[j + 1].requests[r].cell == Full(m) <==> Unspoiled(states, labels, i, j, r, m.header.messageId)
  {
    var s := states[j];
    WaitsUntilSpoiled(states, labels, i, j, r, m.header.messageId);
    RunKeepsInv(states, labels, j);
    assert StepAt(states, labels, j);
    if Lost(s, r) {
      LostStays(s, labels[j], r);
    } else {
      assert Waits(s, r);
    }
  }

  /** Live guards have different ids. */
  ghost predicate DistinctGuards(s: State) {
    forall q, r :: q in s.requests && r in s.requests && q != r && s.requests[q].guarded && s.requests[r].guarded ==>
      s.requests[q].id != s.requests[r].id
  }

  predicate CouldMiss(l: Label, r: nat) {
    l.DropDispatcher? || l.RemoveWaiter? || l == DropGuard(r) || l == GiveUp(r)
  }

  lemma OwnGuardOnly(s: State, l: Label, r: nat, id: Bytes)
    requires Inv(s) && Enabled(s, l) && AwaitsReply(s, r, id) && DistinctGuards(s) && !CouldMiss(l, r)
    ensures !Spoils(s, l, r, id)
  {
    assert Waits(s, r);
  }

  /** While live guards have different ids, only the request's own guard and explicit steps spoil it. */
  lemma {:induction false} DistinctNeverSpoil(states: seq<State>, labels: seq<Label>, i: nat, j: nat, r: nat, id: Bytes)
    requires Run(states, labels) && i <= j < |states| && AwaitsReply(states[i], r, id)
    requires forall k :: i <= k < j ==> DistinctGuards(states[k]) && !CouldMiss(labels[k], r)
    requires NoAnswer(labels, i, j, id)
    ensures Unspoiled(states, labels, i, j, r, id)
    decreases j
  {
    if i < j {
      DistinctNeverSpoil(states, labels, i, j - 1, r, id);
      WaitsUntilSpoiled(states, labels, i, j - 1, r, id);
      RunKeepsInv(states, labels, j - 1);
      assert StepAt(states, labels, j - 1);
      OwnGuardOnly(states[j - 1], labels[j - 1], r, id);
    }
  }

  /**
    So while live guards have different ids, and there is no explicit removal and no end of the
    dispatcher, the first reply processed before the requester gives up reaches the requester.
   */
  lemma ReplyReachesRequester(states: seq<State>, labels: seq<Label>, i: nat, j: nat, r: nat, m: Message)
    requires Run(states, labels) && i <= j < |labels| && AwaitsReply(states[i], r, m.header.messageId)
    requires forall k :: i <= k < j ==> DistinctGuards(states[k]) && !CouldMiss(labels[k], r)
    requires NoAnswer(labels, i, j, m.header.messageId)
    requires labels[j] == Process(m)
    ensures r in states[j + 1].requests && states[j + 1].requests[r].cell == Full(m)
    ensures Enabled(states[j + 1], Take(r)) && Next(states[j + 1], Take(r)).requests[r].outcome == Got(m)
  {
    DistinctNeverSpoil(states, labels, i, j, r, m.header.messageId);
    ReplyArrivesExactly(states, labels, i, j, r, m);
    StillPending(states, labels, i, j, r, m);
  }

  lemma StillPending(states: seq<State>, labels: seq<Label>, i: nat, j: nat, r: nat, m: Message)
    requires Run(states, labels) && i <= j < |labels| && AwaitsReply(states[i], r, m.header.messageId)
    requires NoAnswer(labels, i, j, m.header.messageId)
    requires Unspoiled(states, labels, i, j, r, m.header.messageId)
    requires labels[j] == Process(m)
    ensures r in states[j + 1].requests && states[j + 1].requests[r].outcome == Pending
  {
    WaitsUntilSpoiled(states, labels, i, j, r, m.header.messageId);
    RunKeepsInv(states, labels, j);
    assert StepAt(states, labels, j);
    assert Waits(states[j], r);
  }

  // ----------------------------------------------------------- how waits end

  /** What the step makes of the request's wait. */
  predicate Ends(l: Label, r: nat) {
    l == Take(r) || l == SeeHung(r) || l == GiveUp(r)
  }

  lemma OutcomeStep(s: State, l: Label, r: nat)
    requires Enabled(s, l) && r in Next(s, l).requests
    ensures r !in s.requests ==> l.Register? && Next(s, l).requests[r].outcome == Pending
    ensures r in s.requests ==>
      var before, after := s.requests[r].outcome, Next(s, l).requests[r].outcome;
      if Ends(l, r) then
        && before == Pending
        && (after == Closed <==> l == SeeHung(r)) && (after == GaveUp <==> l == GiveUp(r)) && (after.Got? <==> l == Take(r))
      else after == before
  {
  }

  /** The request's wait has been ended by this very label before step `i`. */
  predicate EndedBy(labels: seq<Label>, i: nat, l: Label)
    requires i <= |labels|
  {
    exists k :: 0 <= k < i && labels[k] == l
  }

  /** Nobody can end the wait of a request that is not registered yet. */
  lemma {:induction false} NotBefore(states: seq<State>, labels: seq<Label>, i: nat, r: nat)
    requires Run(states, labels) && i < |states| && r !in states[i].requests
    ensures forall k :: 0 <= k < i ==> !Ends(labels[k], r)
  {
    if i > 0 {
      assert StepAt(states, labels, i - 1);
      StaysKnown(states[i - 1], labels[i - 1], r);
      NotBefore(states, labels, i - 1, r);
    }
  }

  lemma StaysKnown(s: State, l: Label, r: nat)
    requires Enabled(s, l)
    ensures r in s.requests ==> r in Next(s, l).requests
    ensures Ends(l, r) ==> r in s.requests
  {
  }

  /**
    In every run a request ends as received, closed or given up exactly when its requester took the
    reply, saw its sender gone, or gave up.
   */
  lemma {:induction false} OutcomeIsEarned(states: seq<State>, labels: seq<Label>, i: nat, r: nat)
    requires Run(states, labels) && i < |states| && r in states[i].requests
    ensures states[i].requests[r].outcome.Got? <==> EndedBy(labels, i, Take(r))
    ensures states[i].requests[r].outcome == Closed <==> EndedBy(labels, i, SeeHung(r))
    ensures states[i].requests[r].outcome == GaveUp <==> EndedBy(labels, i, GiveUp(r))
  {
    if i > 0 {
      var s, l := states[i - 1], labels[i - 1];
      assert StepAt(states, labels, i - 1);
      OutcomeStep(s, l, r);
      StaysKnown(s, l, r);
      if r in s.requests {
        OutcomeIsEarned(states, labels, i - 1, r);
      } else {
        NotBefore(states, labels, i - 1, r);
      }
    }
  }

  /** A waiting request is cut off in this step. */
  ghost predicate CutOffAt(states: seq<State>, labels: seq<Label>, k: nat, r: nat)
    requires k < |states| && k < |labels|
  {
    r in states[k].requests && AwaitsReply(states[k], r, states[k].requests[r].id)
    && Severs(states[k], labels[k], states[k].requests[r].id)
  }

  predicate CutOff(s: State, r: nat) {
    r in s.requests && s.requests[r].cell == Hung && (s.requests[r].outcome == Pending || s.requests[r].outcome == Closed)
  }

  lemma CutOffStep(s: State, l: Label, r: nat)
    requires Inv(s) && Enabled(s, l) && CutOff(Next(s, l), r)
    ensures CutOff(s, r) || (r in s.requests && AwaitsReply(s, r, s.requests[r].id) && Severs(s, l, s.requests[r].id))
  {
    OutcomeStep(s, l, r);
    if r in s.requests {
      CellsSettle(s, l, r);
      if s.requests[r].cell == Empty {
        assert Waits(s, r);
      }
    }
  }

  /** A request ends as closed only because, while it waited, a step took its waiter away unfilled. */
  lemma {:induction false} ClosedWasCutOff(states: seq<State>, labels: seq<Label>, i: nat, r: nat) returns (k: nat)
    requires Run(states, labels) && i < |states| && CutOff(states[i], r)
    ensures k < i && CutOffAt(states, labels, k, r)
  {
    assert StepAt(states, labels, i - 1);
    RunKeepsInv(states, labels, i - 1);
    CutOffStep(states[i - 1], labels[i - 1], r);
    if CutOff(states[i - 1], r) {
      k := ClosedWasCutOff(states, labels, i - 1, r);
    } else {
      k := i - 1;
    }
  }

  /** Whoever sees its sender gone had an empty cell cut off before. */
  lemma ClosedMeansCutOff(states: seq<State>, labels: seq<Label>, i: nat, r: nat)
    requires Run(states, labels) && i < |states| && r in states[i].requests && states[i].requests[r].outcome == Closed
    ensures exists k :: 0 <= k < i && CutOffAt(states, labels, k, r)
  {
    RunKeepsInv(states, labels, i);
    var k := ClosedWasCutOff(states, labels, i, r);
  }

  lemma GuardStep(s: State, l: Label, r: nat)
    requires Enabled(s, l) && r in s.requests
    ensures Next(s, l).requests[r].guarded == (s.requests[r].guarded && l != DropGuard(r))
  {
  }

  /** A guard is live until it is dropped, which happens at most once. */
  lemma {:induction false} GuardDropsOnce(states: seq<State>, labels: seq<Label>, i: nat, j: nat, r: nat)
    requires Run(states, labels) && i < j < |states| && labels[i] == DropGuard(r)
    ensures r in states[j].requests && !states[j].requests[r].guarded
    ensures j < |labels| ==> labels[j] != DropGuard(r)
    decreases j
  {
    assert StepAt(states, labels, j - 1);
    StaysKnown(states[j - 1], labels[j - 1], r);
    if i < j - 1 {
      GuardDropsOnce(states, labels, i, j - 1, r);
    }
    GuardStep(states[j - 1], labels[j - 1], r);
    if j < |labels| {
      assert StepAt(states, labels, j);
    }
  }

  lemma EndStep(s: State, l: Label)
    requires Enabled(s, l) && (l.DropDispatcher? || (s.ended && s.waiters == map[]))
    ensures Next(s, l).ended && Next(s, l).waiters == map[]
  {
  }

  lemma NothingAfterEnd(s: State, l: Label)
    requires Enabled(s, l) && s.ended
    ensures !l.Register? && !l.Process? && !l.RemoveWaiter? && !l.DropDispatcher?
  {
  }

  /** After the end of the dispatcher nobody waits, nothing is registered, and nothing is processed. */
  lemma {:induction false} EndIsFinal(states: seq<State>, labels: seq<Label>, i: nat, j: nat)
    requires Run(states, labels) && i < j < |states| && labels[i] == DropDispatcher
    ensures states[j].ended && states[j].waiters == map[]
    ensures j < |labels| ==> !labels[j].Register? && !labels[j].Process? && !labels[j].RemoveWaiter? && !labels[j].DropDispatcher?
    decreases j
  {
    if i < j - 1 {
      EndIsFinal(states, labels, i, j - 1);
    }
    assert StepAt(states, labels, j - 1);
    EndStep(states[j - 1], labels[j - 1]);
    if j < |labels| {
      assert StepAt(states, labels, j);
      NothingAfterEnd(states[j], labels[j]);
    }
  }

  // ------------------------------------------------------------- a reused id

  /** A run goes on with any step that is possible in its last state. */
  lemma Extend(states: seq<State>, labels: seq<Label>, l: Label) returns (states': seq<State>, labels': seq<Label>)
    requires Run(states, labels) && Enabled(states[|labels|], l)
    ensures states' == states + [Next(states[|labels|], l)] && labels' == labels + [l]
    ensures Run(states', labels')
  {
    states', labels' := states + [Next(states[|labels|], l)], labels + [l];
    assert forall i :: 0 <= i < |labels| ==> StepAt(states, labels, i) ==> StepAt(states', labels', i);
  }

  /** One request is made and answered, and its guard is still live. */
  lemma OneRequest(m: Message) returns (states: seq<State>, labels: seq<Label>)
    ensures labels == [Register(1, m.header.messageId), Process(m), Take(1)]
    ensures Run(states, labels)
    ensures states[3] == State(map[], map[1 := Request(m.header.messageId, Full(m), Got(m), true)], false)
  {
    states, labels := Extend([Init], [], Register(1, m.header.messageId));
    states, labels := Extend(states, labels, Process(m));
    states, labels := Extend(states, labels, Take(1));
  }

  /**
    Without different ids it fails: a first request's guard, dropped after its reply, takes away
    the waiter of a second request with the same id, which then never sees its own reply.
   */
  lemma ReusedIdLosesReply(first: Message, second: Message) returns (states: seq<State>, labels: seq<Label>)
    requires first.header.messageId == second.header.messageId
    ensures Run(states, labels) && |labels| == 6
    ensures forall k :: 0 <= k < |labels| ==> !CouldMiss(labels[k], 2)
    ensures AwaitsReply(states[4], 2, second.header.messageId) && labels[5] == Process(second)
    ensures 2 in states[6].requests && states[6].requests[2].cell != Full(second)
  {
    var id := first.header.messageId;
    states, labels := OneRequest(first);
    states, labels := Extend(states, labels, Register(2, id));
    states, labels := Extend(states, labels, DropGuard(1));
    states, labels := Extend(states, labels, Process(second));
    assert Spoils(states[4], labels[4], 2, id);
    ReplyArrivesExactly(states, labels, 4, 5, 2, second);
  }
}
