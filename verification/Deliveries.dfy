/** What a group's dispatcher does with each token and each message, over whole runs. */
module Deliveries {
  import opened Dispatcher

  // -------------------------------------------------- what the records stand for

  /** The messages that senders queued before step `i`, in order. */
  function Sent<M>(labels: seq<Label<M>>, i: nat): seq<M>
    requires i <= |labels|
  {
    if i == 0 then [] else Sent(labels, i - 1) + if labels[i - 1].Send? then [labels[i - 1].message] else []
  }

  /** The tokens that consumers queued before step `i`, in order. */
  function Asked<M>(labels: seq<Label<M>>, i: nat): seq<Token>
    requires i <= |labels|
  {
    if i == 0 then [] else Asked(labels, i - 1) + if labels[i - 1].Request? then [labels[i - 1].token] else []
  }

  /** The tokens whose receivers were dropped before step `i`. */
  function Gone<M>(labels: seq<Label<M>>, i: nat): set<Token>
    requires i <= |labels|
  {
    if i == 0 then {} else Gone(labels, i - 1) + if labels[i - 1].DropReceiver? then {labels[i - 1].token} else {}
  }

  lemma StepRecords<M>(s: State<M>, l: Label<M>)
    requires Enabled(s, l)
    ensures Next(s, l).accepted == s.accepted + if l.Send? then [l.message] else []
    ensures Next(s, l).requested == s.requested + if l.Request? then [l.token] else []
    ensures Next(s, l).dropped == s.dropped + if l.DropReceiver? then {l.token} else {}
  {
  }

  /** In every run the records are exactly what senders and consumers did. */
  lemma {:induction false} RecordsAreTrue<M>(states: seq<State<M>>, labels: seq<Label<M>>, i: nat)
    requires Run(states, labels) && i < |states|
    ensures states[i].accepted == Sent(labels, i)
    ensures states[i].requested == Asked(labels, i)
    ensures states[i].dropped == Gone(labels, i)
  {
    if i > 0 {
      RecordsAreTrue(states, labels, i - 1);
      assert StepAt(states, labels, i - 1);
      StepRecords(states[i - 1], labels[i - 1]);
    }
  }

  lemma StepCloses<M>(s: State<M>, l: Label<M>)
    requires Enabled(s, l)
    ensures Next(s, l).messagesClosed <==> s.messagesClosed || l.CloseMessages?
    ensures Next(s, l).requestsClosed <==> s.requestsClosed || l.CloseRequests?
    ensures l.Send? ==> !s.messagesClosed
    ensures l.Request? ==> !s.requestsClosed
  {
  }

  /** A queue is closed exactly after the step that closes it, and nothing is put into it from then on. */
  lemma {:induction false} ClosingIsFinal<M>(states: seq<State<M>>, labels: seq<Label<M>>, i: nat)
    requires Run(states, labels) && i < |states|
    ensures states[i].messagesClosed <==> exists k :: 0 <= k < i && labels[k].CloseMessages?
    ensures states[i].requestsClosed <==> exists k :: 0 <= k < i && labels[k].CloseRequests?
    ensures i < |labels| && labels[i].Send? ==> !states[i].messagesClosed
    ensures i < |labels| && labels[i].Request? ==> !states[i].requestsClosed
  {
    if i > 0 {
      ClosingIsFinal(states, labels, i - 1);
      assert StepAt(states, labels, i - 1);
      StepCloses(states[i - 1], labels[i - 1]);
    }
    if i < |labels| {
      assert StepAt(states, labels, i);
      StepCloses(states[i], labels[i]);
    }
  }

  /**
    In every run, what senders queued is what was delivered, then at most one message given up, then
    the one in hand, then those still queued; and what consumers asked for is what was served, then
    the token in hand or left over, then those still queued.
   */
  lemma EverythingAccounted<M>(states: seq<State<M>>, labels: seq<Label<M>>, i: nat)
    requires Run(states, labels) && i < |states|
    ensures
      var s := states[i];
      && Sent(labels, i) == Delivered(s.served) + s.lost + InHand(s.phase) + s.messages && |s.lost| <= 1
      && Asked(labels, i) == TokensOf(s.served) + TokenInHand(s.phase) + s.unserved + s.tokens && |s.unserved| <= 1
  {
    RecordsAreTrue(states, labels, i);
    RunKeepsInv(states, labels, i);
  }

  // ------------------------------------------------------- the fate of a token

  /** Step `i` hands the message in hand to the receiver of `entry`'s token if it is there, and skips the token if not. */
  ghost predicate DecidedAt<M>(states: seq<State<M>>, labels: seq<Label<M>>, i: nat, entry: Served<M>)
    requires i < |states| && i < |labels|
  {
    && labels[i] == HandOver
    && states[i].phase.Delivering? && states[i].phase.token == entry.token
    && (match entry
        case Gave(t, m) => t !in Gone(labels, i) && states[i].phase.message == m
        case Skipped(t) => t in Gone(labels, i))
  }

  lemma OnlyHandOverServes<M>(s: State<M>, l: Label<M>)
    requires Enabled(s, l)
    ensures if l != HandOver then Next(s, l).served == s.served
            else Next(s, l).served == s.served +
                   [if s.phase.token in s.dropped then Skipped(s.phase.token) else Gave(s.phase.token, s.phase.message)]
  {
  }

  /**
    In every run, a token was given its message in a step at which its receiver was still there,
    and was skipped in a step at which its receiver was gone.
   */
  lemma {:induction false} GivenExactlyToLive<M>(states: seq<State<M>>, labels: seq<Label<M>>, j: nat, k: nat) returns (i: nat)
    requires Run(states, labels) && j < |states| && k < |states[j].served|
    ensures i < j && |states[i].served| == k && DecidedAt(states, labels, i, states[j].served[k])
  {
    assert StepAt(states, labels, j - 1);
    OnlyHandOverServes(states[j - 1], labels[j - 1]);
    if k < |states[j - 1].served| {
      i := GivenExactlyToLive(states, labels, j - 1, k);
    } else {
      RecordsAreTrue(states, labels, j - 1);
      i := j - 1;
    }
  }

  lemma Extend<M>(states: seq<State<M>>, labels: seq<Label<M>>, l: Label<M>)
    returns (states': seq<State<M>>, labels': seq<Label<M>>)
    requires Run(states, labels) && Enabled(states[|labels|], l)
    ensures states' == states + [Next(states[|labels|], l)] && labels' == labels + [l]
    ensures Run(states', labels')
  {
    states', labels' := states + [Next(states[|labels|], l)], labels + [l];
    assert forall i :: 0 <= i < |labels| ==> StepAt(states, labels, i) ==> StepAt(states', labels', i);
  }

  /** A message meets a consumer that is gone. */
  lemma MeetsDropped<M>(m: M) returns (states: seq<State<M>>, labels: seq<Label<M>>)
    ensures Run(states, labels) && labels == [Request(1), DropReceiver(1), Request(2), Send(m), TakeToken, TakeMessage]
    ensures
      var s := states[6];
      s.phase == Delivering(1, m) && s.tokens == [2] && s.messages == [] && s.dropped == {1} && s.served == []
  {
    states, labels := Extend([Init()], [], Request(1));
    states, labels := Extend(states, labels, DropReceiver(1));
    states, labels := Extend(states, labels, Request(2));
    states, labels := Extend(states, labels, Send(m));
    states, labels := Extend(states, labels, TakeToken);
    states, labels := Extend(states, labels, TakeMessage);
  }

  /** A consumer asks and goes away, another asks, one message is sent: the second consumer gets it. */
  lemma SecondConsumerGetsIt<M>(m: M) returns (states: seq<State<M>>, labels: seq<Label<M>>)
    ensures Run(states, labels) && |labels| == 9
    ensures labels[..6] == [Request(1), DropReceiver(1), Request(2), Send(m), TakeToken, TakeMessage]
    ensures states[9].served == [Skipped(1), Gave(2, m)]
  {
    states, labels := MeetsDropped(m);
    states, labels := Extend(states, labels, HandOver);
    states, labels := Extend(states, labels, Retry);
    states, labels := Extend(states, labels, HandOver);
  }

  // ----------------------------------------------------- the fate of a message

  lemma {:induction false} DeliveredPrefix<M>(served: seq<Served<M>>, k: nat)
    requires k <= |served|
    ensures Delivered(served[..k]) <= Delivered(served)
    decreases |served|
  {
    if k < |served| {
      var n := |served| - 1;
      DeliveredPrefix(served[..n], k);
      assert served[..n][..k] == served[..k];
    } else {
      assert served[..k] == served;
    }
  }

  lemma DeliveredStep<M>(served: seq<Served<M>>, k: nat)
    requires k < |served|
    ensures Delivered(served[..k + 1]) == Delivered(served[..k]) + if served[k].Gave? then [served[k].message] else []
  {
    DeliveredSnoc(served[..k], served[k]);
    assert served[..k] + [served[k]] == served[..k + 1];
  }

  lemma {:induction false} SkippedAddNothing<M>(served: seq<Served<M>>, a: nat, k: nat)
    requires a <= k <= |served| && forall n :: a <= n < k ==> served[n].Skipped?
    ensures Delivered(served[..k]) == Delivered(served[..a])
    decreases k
  {
    if a < k {
      SkippedAddNothing(served, a, k - 1);
      DeliveredStep(served, k - 1);
    }
  }

  lemma {:induction false} AcceptedGrows<M>(states: seq<State<M>>, labels: seq<Label<M>>, i: nat, j: nat)
    requires Run(states, labels) && i <= j < |states|
    ensures states[i].accepted <= states[j].accepted
    decreases j
  {
    if i < j {
      AcceptedGrows(states, labels, i, j - 1);
      assert StepAt(states, labels, j - 1);
      StepRecords(states[j - 1], labels[j - 1]);
    }
  }

  /** The first entry after `a` that is no skip carries the message after those delivered by then. */
  lemma FirstGivenIs<M>(served: seq<Served<M>>, a: nat, k: nat)
    requires a <= k < |served| && served[k].Gave? && forall n :: a <= n < k ==> served[n].Skipped?
    ensures Delivered(served[..a]) + [served[k].message] <= Delivered(served)
  {
    SkippedAddNothing(served, a, k);
    DeliveredStep(served, k);
    DeliveredPrefix(served, k + 1);
  }

  lemma HeldIsNext<M>(s: State<M>)
    requires Inv(s) && InHand(s.phase) != []
    ensures Delivered(s.served) + InHand(s.phase) <= s.accepted
  {
    assert s.lost == [];
    NoneAfter(Delivered(s.served));
    assert s.accepted == Delivered(s.served) + InHand(s.phase) + s.messages;
  }

  /**
    The message in hand stays there past every dropped token and is what the next live token gets,
    however many tokens are skipped before and whatever is queued meanwhile.
   */
  lemma KeptForNextLive<M>(states: seq<State<M>>, labels: seq<Label<M>>, i: nat, j: nat, k: nat)
    requires Run(states, labels) && i <= j < |states| && InHand(states[i].phase) != []
    requires |states[i].served| <= k < |states[j].served| && states[j].served[k].Gave?
    requires forall n :: |states[i].served| <= n < k ==> states[j].served[n].Skipped?
    ensures [states[j].served[k].message] == InHand(states[i].phase)
  {
    var s, s' := states[i], states[j];
    RunKeepsInv(states, labels, i);
    HeldIsNext(s);
    ServedGrows(states, labels, i, j);
    assert s'.served[..|s.served|] == s.served;
    FirstGivenIs(s'.served, |s.served|, k);
    NoOvertaking(states, labels, j);
    AcceptedGrows(states, labels, i, j);
    SamePlace(Delivered(s.served), s'.served[k].message, InHand(s.phase)[0], s'.accepted);
  }

  lemma SamePlace<A>(front: seq<A>, a: A, b: A, all: seq<A>)
    requires front + [a] <= all && front + [b] <= all
    ensures a == b
  {
    assert all[|front|] == (front + [a])[|front|] == (front + [b])[|front|];
  }

  // ------------------------------------------------------- the task undisturbed

  /** A step of the task itself, other than being aborted. */
  predicate TaskStep<M>(l: Label<M>) {
    l.TakeToken? || l.TakeMessage? || l.HandOver? || l.Retry? || l.EndOfTokens? || l.EndOfMessages?
  }

  /** Who was given what, in order. */
  function Given<M>(served: seq<Served<M>>): seq<(Token, M)> {
    if served == [] then []
    else
      var last := served[|served| - 1];
      Given(served[..|served| - 1]) + if last.Gave? then [(last.token, last.message)] else []
  }

  /** Who will be given what, if nobody else steps in any more: live tokens and messages pair up in order. */
  function ToCome<M>(s: State<M>): seq<(Token, M)> {
    match s.phase
    case AwaitToken => Pair(Live(s.tokens, s.dropped), s.messages)
    case AwaitMessage(t) => Pair(Live([t] + s.tokens, s.dropped), s.messages)
    case Delivering(t, m) => Pair(Live([t] + s.tokens, s.dropped), [m] + s.messages)
    case AwaitNextToken(m) => Pair(Live(s.tokens, s.dropped), [m] + s.messages)
    case Finished => []
  }

  lemma LiveCons(t: Token, tokens: seq<Token>, dropped: set<Token>)
    ensures Live([t] + tokens, dropped) == (if t in dropped then [] else [t]) + Live(tokens, dropped)
  {
    assert ([t] + tokens)[1..] == tokens;
  }

  lemma PairCons<M>(t: Token, tokens: seq<Token>, m: M, messages: seq<M>)
    ensures Pair([t] + tokens, [m] + messages) == [(t, m)] + Pair(tokens, messages)
  {
    assert ([t] + tokens)[1..] == tokens && ([m] + messages)[1..] == messages;
  }

  lemma GivenSnoc<M>(served: seq<Served<M>>, x: Served<M>)
    ensures Given(served + [x]) == Given(served) + if x.Gave? then [(x.token, x.message)] else []
  {
    assert (served + [x])[..|served|] == served;
  }

  lemma SkippingKeepsOutcome<M>(s: State<M>)
    requires s.phase.Delivering? && s.phase.token in s.dropped
    ensures Given(Next(s, HandOver).served) == Given(s.served)
    ensures ToCome(Next(s, HandOver)) == ToCome(s)
  {
    var t := s.phase.token;
    LiveCons(t, s.tokens, s.dropped);
    GivenSnoc(s.served, Skipped(t));
    NoneAfter(Given(s.served));
    assert [] + Live(s.tokens, s.dropped) == Live(s.tokens, s.dropped);
  }

  lemma GivingKeepsOutcome<M>(s: State<M>)
    requires s.phase.Delivering? && s.phase.token !in s.dropped
    ensures
      var pair := [(s.phase.token, s.phase.message)];
      Given(Next(s, HandOver).served) == Given(s.served) + pair && ToCome(s) == pair + ToCome(Next(s, HandOver))
  {
    var t, m := s.phase.token, s.phase.message;
    LiveCons(t, s.tokens, s.dropped);
    GivenSnoc(s.served, Gave(t, m));
    PairCons(t, Live(s.tokens, s.dropped), m, s.messages);
  }

  lemma HandOverKeepsOutcome<M>(s: State<M>)
    requires s.phase.Delivering?
    ensures Given(Next(s, HandOver).served) + ToCome(Next(s, HandOver)) == Given(s.served) + ToCome(s)
  {
    if s.phase.token in s.dropped {
      SkippingKeepsOutcome(s);
    } else {
      GivingKeepsOutcome(s);
      After(Given(s.served), [(s.phase.token, s.phase.message)], ToCome(Next(s, HandOver)));
    }
  }

  lemma TakingKeepsOutcome<M>(s: State<M>, l: Label<M>)
    requires Enabled(s, l) && (l.TakeToken? || l.TakeMessage? || l.Retry?)
    ensures ToCome(Next(s, l)) == ToCome(s)
  {
    if l.TakeMessage? {
      HeadAndTail(s.messages);
    } else {
      HeadAndTail(s.tokens);
    }
  }

  lemma EndingKeepsOutcome<M>(s: State<M>, l: Label<M>)
    requires Enabled(s, l) && (l.EndOfTokens? || l.EndOfMessages?)
    ensures ToCome(Next(s, l)) == ToCome(s)
  {
  }

  lemma TaskKeepsOutcome<M>(s: State<M>, l: Label<M>)
    requires Enabled(s, l) && TaskStep(l)
    ensures Given(Next(s, l).served) + ToCome(Next(s, l)) == Given(s.served) + ToCome(s)
  {
    OnlyHandOverServes(s, l);
    match l
    case HandOver => HandOverKeepsOutcome(s);
    case EndOfTokens => EndingKeepsOutcome(s, l);
    case EndOfMessages => EndingKeepsOutcome(s, l);
    case _ => TakingKeepsOutcome(s, l);
  }

  lemma {:induction false} OutcomeStays<M>(states: seq<State<M>>, labels: seq<Label<M>>, i: nat, j: nat)
    requires Run(states, labels) && i <= j < |states| && forall k :: i <= k < j ==> TaskStep(labels[k])
    ensures Given(states[j].served) + ToCome(states[j]) == Given(states[i].served) + ToCome(states[i])
    decreases j
  {
    if i < j {
      OutcomeStays(states, labels, i, j - 1);
      assert StepAt(states, labels, j - 1);
      TaskKeepsOutcome(states[j - 1], labels[j - 1]);
    }
  }

  /**
    Left alone until it ends by itself, the task gives the queued messages, in order, to the queued
    tokens that are live, in order: the machine does what the nested loops of `Drain` compute.
   */
  lemma LeftAloneItDrains<M>(states: seq<State<M>>, labels: seq<Label<M>>, i: nat, j: nat)
    requires Run(states, labels) && i <= j < |states| && forall k :: i <= k < j ==> TaskStep(labels[k])
    requires states[i].phase.AwaitToken? && states[j].phase.Finished?
    ensures Given(states[j].served) ==
      Given(states[i].served) + Pair(Live(states[i].tokens, states[i].dropped), states[i].messages)
  {
    OutcomeStays(states, labels, i, j);
    NoneAfter(Given(states[j].served));
  }

  /** The task waits for a queue that is empty but may still be filled. */
  predicate Waits<M>(s: State<M>) {
    match s.phase
    case AwaitToken => s.tokens == [] && !s.requestsClosed
    case AwaitMessage(_) => s.messages == [] && !s.messagesClosed
    case AwaitNextToken(_) => s.tokens == [] && !s.requestsClosed
    case _ => false
  }

  /** The task can go on exactly when it has not ended and does not wait for somebody else. */
  lemma GoesOnExactly<M>(s: State<M>)
    ensures (exists l: Label<M> :: TaskStep(l) && Enabled(s, l)) <==> !s.phase.Finished? && !Waits(s)
  {
    if !s.phase.Finished? && !Waits(s) {
      var l: Label<M> :=
        match s.phase
        case AwaitToken => if s.tokens == [] then EndOfTokens else TakeToken
        case AwaitMessage(_) => if s.messages == [] then EndOfMessages else TakeMessage
        case Delivering(_, _) => HandOver
        case AwaitNextToken(_) => if s.tokens == [] then EndOfTokens else Retry
        case Finished => HandOver;
      assert TaskStep(l) && Enabled(s, l);
    }
  }

  /** Shutting the group down ends the task wherever it waits, and gives up the message it holds there, if any. */
  lemma AbortGivesUp<M>(s: State<M>)
    ensures Enabled(s, Abort) <==> !s.phase.Delivering? && !s.phase.Finished?
    ensures Enabled(s, Abort) ==>
      var s' := Next(s, Abort);
      && s'.phase.Finished? && s'.served == s.served && s'.messages == s.messages && s'.tokens == s.tokens
      && s'.lost == if s.phase.AwaitNextToken? then s.lost + [s.phase.message] else s.lost
  {
  }

  /** How many steps the task can make at most before it needs a new token. */
  function Work<M>(s: State<M>): nat {
    4 * |s.tokens| +
    match s.phase
    case AwaitToken => 1
    case AwaitNextToken(_) => 2
    case Delivering(_, _) => 3
    case AwaitMessage(_) => 4
    case Finished => 0
  }

  /** Every step of the task uses up work, so left alone it ends or waits. */
  lemma TaskUsesUpWork<M>(s: State<M>, l: Label<M>)
    requires Enabled(s, l) && TaskStep(l)
    ensures Work(Next(s, l)) < Work(s)
  {
  }
}
