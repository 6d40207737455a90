/**
  The task behind a load-balanced group. It takes a token from the request queue, then a message
  from the shared queue, and hands the message over; when the token's receiver is gone it keeps
  the message and waits for the next token. Every label is one atomic step of the task, of a
  consumer, of a sender, or of the group being shut down.
 */
module Dispatcher {

  type Token = nat

  datatype Served<M> = Gave(token: Token, message: M) | Skipped(token: Token)

  datatype Phase<M> =
    | AwaitToken
    | AwaitMessage(token: Token)
    | Delivering(token: Token, message: M)
    | AwaitNextToken(message: M)
    | Finished

  /**
    `requested` and `accepted` record every token and message ever queued; `served` what became of
    the tokens taken, in order; `unserved` the token in hand when the task ended, and `lost` the
    message given up. `dropped` holds the tokens whose receiver is gone.
   */
  datatype State<M> = State(
    phase: Phase<M>,
    tokens: seq<Token>,
    messages: seq<M>,
    requestsClosed: bool,
    messagesClosed: bool,
    dropped: set<Token>,
    requested: seq<Token>,
    accepted: seq<M>,
    served: seq<Served<M>>,
    unserved: seq<Token>,
    lost: seq<M>)

  datatype Label<M> =
    | Request(token: Token)
    | Send(message: M)
    | DropReceiver(token: Token)
    | CloseRequests
    | CloseMessages
    | TakeToken
    | TakeMessage
    | HandOver
    | Retry
    | EndOfTokens
    | EndOfMessages
    | Abort

  function Init<M>(): State<M> {
    State(AwaitToken, [], [], false, false, {}, [], [], [], [], [])
  }

  predicate Enabled<M>(s: State<M>, l: Label<M>) {
    match l
    case Request(t) => !s.requestsClosed && !s.phase.Finished? && t !in s.requested
    case Send(_) => !s.messagesClosed && !s.phase.Finished?
    case DropReceiver(_) => true
    case CloseRequests => true
    case CloseMessages => true
    case TakeToken => s.phase.AwaitToken? && s.tokens != []
    case TakeMessage => s.phase.AwaitMessage? && s.messages != []
    case HandOver => s.phase.Delivering?
    case Retry => s.phase.AwaitNextToken? && s.tokens != []
    case EndOfTokens => (s.phase.AwaitToken? || s.phase.AwaitNextToken?) && s.tokens == [] && s.requestsClosed
    case EndOfMessages => s.phase.AwaitMessage? && s.messages == [] && s.messagesClosed
    case Abort => s.phase.AwaitToken? || s.phase.AwaitMessage? || s.phase.AwaitNextToken?
  }

  /** The inner loop leaves a message behind when tokens end; the outer loop then ends on its own. */
  function Next<M>(s: State<M>, l: Label<M>): State<M>
    requires Enabled(s, l)
  {
    match l
    case Request(t) => s.(tokens := s.tokens + [t], requested := s.requested + [t])
    case Send(m) => s.(messages := s.messages + [m], accepted := s.accepted + [m])
    case DropReceiver(t) => s.(dropped := s.dropped + {t})
    case CloseRequests => s.(requestsClosed := true)
    case CloseMessages => s.(messagesClosed := true)
    case TakeToken => s.(phase := AwaitMessage(s.tokens[0]), tokens := s.tokens[1..])
    case TakeMessage => s.(phase := Delivering(s.phase.token, s.messages[0]), messages := s.messages[1..])
    case HandOver =>
      var t, m := s.phase.token, s.phase.message;
      if t in s.dropped
      then s.(phase := AwaitNextToken(m), served := s.served + [Skipped(t)])
      else s.(phase := AwaitToken, served := s.served + [Gave(t, m)])
    case Retry => s.(phase := Delivering(s.tokens[0], s.phase.message), tokens := s.tokens[1..])
    case EndOfTokens =>
      if s.phase.AwaitNextToken? then s.(phase := AwaitToken, lost := s.lost + [s.phase.message])
      else s.(phase := Finished)
    case EndOfMessages => s.(phase := Finished, unserved := [s.phase.token])
    case Abort =>
      s.(phase := Finished,
         unserved := if s.phase.AwaitMessage? then [s.phase.token] else [],
         lost := s.lost + InHand(s.phase))
  }

  function InHand<M>(p: Phase<M>): seq<M> {
    if p.Delivering? || p.AwaitNextToken? then [p.message] else []
  }

  function TokenInHand<M>(p: Phase<M>): seq<Token> {
    if p.AwaitMessage? || p.Delivering? then [p.token] else []
  }

  function Delivered<M>(served: seq<Served<M>>): seq<M> {
    if served == [] then []
    else
      var last := served[|served| - 1];
      Delivered(served[..|served| - 1]) + if last.Gave? then [last.message] else []
  }

  function TokensOf<M>(served: seq<Served<M>>): seq<Token> {
    seq(|served|, i requires 0 <= i < |served| => served[i].token)
  }

  // --------------------------------------------------------------- invariant

  ghost predicate Distinct(ts: seq<Token>) {
    forall i, j :: 0 <= i < j < |ts| ==> ts[i] != ts[j]
  }

  /** The messages taken from the queue. */
  function TakenMessages<M>(s: State<M>): seq<M> {
    Delivered(s.served) + s.lost + InHand(s.phase)
  }

  /** The tokens taken from the queue. */
  function TakenTokens<M>(s: State<M>): seq<Token> {
    TokensOf(s.served) + TokenInHand(s.phase) + s.unserved
  }

  /** No message is lost, doubled or overtaken. */
  ghost predicate Conserves<M>(s: State<M>) {
    s.accepted == TakenMessages(s) + s.messages
  }

  /** Tokens are taken in the order of the requests. */
  ghost predicate InRequestOrder<M>(s: State<M>) {
    s.requested == TakenTokens(s) + s.tokens
  }

  /** A message is given up only at the end: no token is left, or the task was aborted. */
  ghost predicate LosesAtMostOne<M>(s: State<M>) {
    && |s.lost| <= 1
    && (s.lost != [] ==> s.phase.Finished? || (s.phase.AwaitToken? && s.tokens == [] && s.requestsClosed))
  }

  /** Tokens are skipped, and messages given up, only because a receiver was dropped. */
  ghost predicate SkipsOnlyDropped<M>(s: State<M>) {
    && (forall i :: 0 <= i < |s.served| && s.served[i].Skipped? ==> s.served[i].token in s.dropped)
    && (s.phase.AwaitNextToken? || s.lost != [] ==> s.served != [] && s.served[|s.served| - 1].Skipped?)
  }

  ghost predicate UnservedOnlyAtEnd<M>(s: State<M>) {
    (!s.phase.Finished? ==> s.unserved == []) && |s.unserved| <= 1
  }

  ghost predicate Inv<M>(s: State<M>) {
    && Conserves(s)
    && InRequestOrder(s)
    && Distinct(s.requested)
    && LosesAtMostOne(s)
    && SkipsOnlyDropped(s)
    && UnservedOnlyAtEnd(s)
  }

  /** Label `i` leads from state `i` to the next. */
  predicate StepAt<M(==)>(states: seq<State<M>>, labels: seq<Label<M>>, i: nat)
    requires i < |labels| && |states| == |labels| + 1
  {
    Enabled(states[i], labels[i]) && states[i + 1] == Next(states[i], labels[i])
  }

  ghost predicate Run<M>(states: seq<State<M>>, labels: seq<Label<M>>) {
    && |states| == |labels| + 1
    && states[0] == Init()
    && forall i :: 0 <= i < |labels| ==> StepAt(states, labels, i)
  }

  lemma DeliveredSnoc<M>(served: seq<Served<M>>, x: Served<M>)
    ensures Delivered(served + [x]) == Delivered(served) + if x.Gave? then [x.message] else []
    ensures TokensOf(served + [x]) == TokensOf(served) + [x.token]
  {
    assert (served + [x])[..|served|] == served;
  }

  lemma NoneAfter<A>(front: seq<A>)
    ensures front + [] == front
  {
  }

  lemma GivingTakes<M>(s: State<M>)
    requires s.phase.Delivering? && s.lost == [] && s.unserved == [] && s.phase.token !in s.dropped
    ensures TakenMessages(Next(s, HandOver)) == TakenMessages(s)
    ensures TakenTokens(Next(s, HandOver)) == TakenTokens(s)
  {
    var t, m := s.phase.token, s.phase.message;
    DeliveredSnoc(s.served, Gave(t, m));
    NoneAfter(Delivered(s.served));
    NoneAfter(Delivered(s.served) + [m]);
    NoneAfter(TokensOf(s.served) + [t]);
  }

  lemma SkippingTakes<M>(s: State<M>)
    requires s.phase.Delivering? && s.lost == [] && s.unserved == [] && s.phase.token in s.dropped
    ensures TakenMessages(Next(s, HandOver)) == TakenMessages(s)
    ensures TakenTokens(Next(s, HandOver)) == TakenTokens(s)
  {
    var t := s.phase.token;
    DeliveredSnoc(s.served, Skipped(t));
    NoneAfter(Delivered(s.served));
    NoneAfter(TokensOf(s.served) + [t]);
  }

  /** Ending keeps a message given up, or a token left over, among what was taken. */
  lemma EndTakes<M>(s: State<M>, l: Label<M>)
    requires Inv(s) && Enabled(s, l) && (l.EndOfTokens? || l.EndOfMessages? || l.Abort?)
    ensures TakenMessages(Next(s, l)) == TakenMessages(s)
    ensures TakenTokens(Next(s, l)) == TakenTokens(s)
  {
    assert s.unserved == [];
  }

  /** The message, and the token, that the step takes from its queue. */
  function MessageTaken<M>(s: State<M>, l: Label<M>): seq<M>
    requires Enabled(s, l)
  {
    if l.TakeMessage? then [s.messages[0]] else []
  }

  function TokenTaken<M>(s: State<M>, l: Label<M>): seq<Token>
    requires Enabled(s, l)
  {
    if l.TakeToken? || l.Retry? then [s.tokens[0]] else []
  }

  lemma TakingTakes<M>(s: State<M>, l: Label<M>)
    requires Inv(s) && Enabled(s, l) && (l.TakeToken? || l.TakeMessage? || l.Retry?)
    ensures TakenMessages(Next(s, l)) == TakenMessages(s) + MessageTaken(s, l)
    ensures TakenTokens(Next(s, l)) == TakenTokens(s) + TokenTaken(s, l)
  {
    assert s.unserved == [] && s.lost == [];
    NoneAfter(Delivered(s.served) + s.lost);
    NoneAfter(TokensOf(s.served));
    NoneAfter(TakenMessages(s));
    NoneAfter(TakenTokens(s));
  }

  /** Only taking a message or a token changes what was taken. */
  lemma StepTakes<M>(s: State<M>, l: Label<M>)
    requires Inv(s) && Enabled(s, l)
    ensures TakenMessages(Next(s, l)) == TakenMessages(s) + MessageTaken(s, l)
    ensures TakenTokens(Next(s, l)) == TakenTokens(s) + TokenTaken(s, l)
  {
    if l.TakeToken? || l.TakeMessage? || l.Retry? {
      TakingTakes(s, l);
    } else {
      NoneAfter(TakenMessages(s));
      NoneAfter(TakenTokens(s));
      if l.HandOver? {
        if s.phase.token in s.dropped {
          SkippingTakes(s);
        } else {
          GivingTakes(s);
        }
      } else if l.EndOfTokens? || l.EndOfMessages? || l.Abort? {
        EndTakes(s, l);
      }
    }
  }

  lemma HeadAndTail<A>(queue: seq<A>)
    requires queue != []
    ensures [queue[0]] + queue[1..] == queue
  {
  }

  /** What the message queue gains at its end was accepted, what it loses at its front was taken. */
  lemma StepMessages<M>(s: State<M>, l: Label<M>)
    requires Enabled(s, l)
    ensures
      var s', sent := Next(s, l), if l.Send? then [l.message] else [];
      s'.accepted == s.accepted + sent && s.messages + sent == MessageTaken(s, l) + s'.messages
  {
    if l.TakeMessage? {
      HeadAndTail(s.messages);
    }
  }

  /** Likewise for the token queue. */
  lemma StepTokens<M>(s: State<M>, l: Label<M>)
    requires Enabled(s, l)
    ensures
      var s', asked := Next(s, l), if l.Request? then [l.token] else [];
      s'.requested == s.requested + asked && s.tokens + asked == TokenTaken(s, l) + s'.tokens
  {
    if l.TakeToken? || l.Retry? {
      HeadAndTail(s.tokens);
    }
  }

  lemma After<A>(x: seq<A>, y: seq<A>, z: seq<A>)
    ensures x + y + z == x + (y + z)
  {
  }

  lemma Balance<A>(all: seq<A>, taken: seq<A>, queue: seq<A>, more: seq<A>, next: seq<A>, queue': seq<A>)
    requires all == taken + queue && queue + more == next + queue'
    ensures all + more == taken + next + queue'
  {
    After(taken, queue, more);
    After(taken, next, queue');
  }

  lemma StepConserves<M>(s: State<M>, l: Label<M>)
    requires Inv(s) && Enabled(s, l)
    ensures Conserves(Next(s, l))
  {
    StepTakes(s, l);
    StepMessages(s, l);
    Balance(s.accepted, TakenMessages(s), s.messages, if l.Send? then [l.message] else [],
            MessageTaken(s, l), Next(s, l).messages);
  }

  lemma StepKeepsOrder<M>(s: State<M>, l: Label<M>)
    requires Inv(s) && Enabled(s, l)
    ensures InRequestOrder(Next(s, l))
  {
    StepTakes(s, l);
    StepTokens(s, l);
    Balance(s.requested, TakenTokens(s), s.tokens, if l.Request? then [l.token] else [],
            TokenTaken(s, l), Next(s, l).tokens);
  }

  lemma RequestKeepsDistinct(requested: seq<Token>, t: Token)
    requires Distinct(requested) && t !in requested
    ensures Distinct(requested + [t])
  {
  }

  lemma StepKeepsDistinct<M>(s: State<M>, l: Label<M>)
    requires Inv(s) && Enabled(s, l)
    ensures Distinct(Next(s, l).requested)
  {
    if l.Request? {
      RequestKeepsDistinct(s.requested, l.token);
    }
  }

  /** A message is given up only by the two ends, and by each only when none was given up before. */
  lemma StepLosesAtMostOne<M>(s: State<M>, l: Label<M>)
    requires Inv(s) && Enabled(s, l)
    ensures LosesAtMostOne(Next(s, l))
  {
    if l.EndOfTokens? || l.Abort? {
      assert s.phase.AwaitNextToken? ==> s.lost == [];
    }
  }

  lemma StepSkipsOnlyDropped<M>(s: State<M>, l: Label<M>)
    requires Inv(s) && Enabled(s, l)
    ensures SkipsOnlyDropped(Next(s, l))
  {
    if l.HandOver? {
      assert s.lost == [];
    }
  }

  lemma StepKeepsUnserved<M>(s: State<M>, l: Label<M>)
    requires Inv(s) && Enabled(s, l)
    ensures UnservedOnlyAtEnd(Next(s, l))
  {
  }

  lemma StepKeepsInv<M>(s: State<M>, l: Label<M>)
    requires Inv(s) && Enabled(s, l)
    ensures Inv(Next(s, l))
  {
    StepConserves(s, l);
    StepKeepsOrder(s, l);
    StepKeepsDistinct(s, l);
    StepLosesAtMostOne(s, l);
    StepSkipsOnlyDropped(s, l);
    StepKeepsUnserved(s, l);
  }

  lemma {:induction false} RunKeepsInv<M>(states: seq<State<M>>, labels: seq<Label<M>>, i: nat)
    requires Run(states, labels) && i < |states|
    ensures Inv(states[i])
  {
    if i > 0 {
      RunKeepsInv(states, labels, i - 1);
      assert StepAt(states, labels, i - 1);
      StepKeepsInv(states[i - 1], labels[i - 1]);
    }
  }

  // ------------------------------------------------------------------ results

  /**
    In every run: accepted messages are the delivered ones, then at most one given up at the end,
    then the one in hand, then those queued, in the order of acceptance.
   */
  lemma Conservation<M>(states: seq<State<M>>, labels: seq<Label<M>>, i: nat)
    requires Run(states, labels) && i < |states|
    ensures var s := states[i];
      && s.accepted == Delivered(s.served) + s.lost + InHand(s.phase) + s.messages
      && |s.lost| <= 1
      && (s.lost != [] && !s.phase.Finished? ==> s.tokens == [] && s.requestsClosed)
  {
    RunKeepsInv(states, labels, i);
  }

  /** While no consumer drops a pending receiver, nothing is lost, however the task ends. */
  lemma NothingLostWithoutDrops<M>(states: seq<State<M>>, labels: seq<Label<M>>, i: nat)
    requires Run(states, labels) && i < |states| && states[i].dropped == {}
    ensures states[i].accepted == Delivered(states[i].served) + InHand(states[i].phase) + states[i].messages
  {
    RunKeepsInv(states, labels, i);
  }

  /** In every run: tokens are served in request order, each at most once, and skipped only when their receiver was dropped. */
  lemma TokensInOrder<M>(states: seq<State<M>>, labels: seq<Label<M>>, i: nat)
    requires Run(states, labels) && i < |states|
    ensures var s := states[i];
      && TokensOf(s.served) <= s.requested
      && Distinct(TokensOf(s.served))
      && (forall k :: 0 <= k < |s.served| && s.served[k].Skipped? ==> s.served[k].token in s.dropped)
      && |s.requested| <= |s.served| + 1 + |s.tokens|
  {
    RunKeepsInv(states, labels, i);
    var s := states[i];
    assert TokensOf(s.served) == s.requested[..|s.served|];
  }

  /** What is delivered is a beginning of what was accepted: no message overtakes another. */
  lemma NoOvertaking<M>(states: seq<State<M>>, labels: seq<Label<M>>, i: nat)
    requires Run(states, labels) && i < |states|
    ensures Delivered(states[i].served) <= states[i].accepted
  {
    RunKeepsInv(states, labels, i);
  }

  /** A message once delivered stays delivered, at the same place. */
  lemma {:induction false} ServedGrows<M>(states: seq<State<M>>, labels: seq<Label<M>>, i: nat, j: nat)
    requires Run(states, labels) && i <= j < |states|
    ensures states[i].served <= states[j].served
    decreases j
  {
    if i < j {
      ServedGrows(states, labels, i, j - 1);
      assert StepAt(states, labels, j - 1);
    }
  }

  // ------------------------------------------------------- the task undisturbed

  /** The tokens whose receivers are still there. */
  function Live(tokens: seq<Token>, dropped: set<Token>): seq<Token> {
    if tokens == [] then []
    else (if tokens[0] in dropped then [] else [tokens[0]]) + Live(tokens[1..], dropped)
  }

  function Pair<M>(tokens: seq<Token>, messages: seq<M>): seq<(Token, M)> {
    if tokens == [] || messages == [] then []
    else [(tokens[0], messages[0])] + Pair(tokens[1..], messages[1..])
  }

  lemma PairAppend<M>(done: seq<(Token, M)>, t: Token, ts: seq<Token>, ms: seq<M>)
    requires ms != []
    ensures done + [(t, ms[0])] + Pair(ts, ms[1..]) == done + Pair([t] + ts, ms)
  {
    assert ([t] + ts)[1..] == ts;
    assert Pair([t] + ts, ms) == [(t, ms[0])] + Pair(ts, ms[1..]);
    After(done, [(t, ms[0])], Pair(ts, ms[1..]));
  }

  /** The inner loop: offers the message to one token after another until a receiver is there to take it. */
  method Deliver(first: Token, queue: seq<Token>, dropped: set<Token>) returns (handed: bool, token: Token, rest: seq<Token>)
    ensures handed ==> Live([first] + queue, dropped) == [token] + Live(rest, dropped)
    ensures !handed ==> Live([first] + queue, dropped) == [] && rest == []
  {
    token, rest := first, queue;
    while true
      invariant Live([token] + rest, dropped) == Live([first] + queue, dropped)
      decreases |rest|
    {
      assert ([token] + rest)[1..] == rest;
      if token !in dropped {
        return true, token, rest;
      }
      if rest == [] {
        return false, token, rest;
      }
      assert rest == [rest[0]] + rest[1..];
      token, rest := rest[0], rest[1..];
    }
  }

  /**
    The two nested loops on queues that nobody else touches and that are closed behind: the
    messages go, in order, to the live tokens, in order.
   */
  method Drain<M>(tokens: seq<Token>, messages: seq<M>, dropped: set<Token>) returns (delivered: seq<(Token, M)>)
    ensures delivered == Pair(Live(tokens, dropped), messages)
  {
    delivered := [];
    var ts, ms := tokens, messages;
    while ts != [] && ms != []
      invariant delivered + Pair(Live(ts, dropped), ms) == Pair(Live(tokens, dropped), messages)
      decreases |ms|
    {
      assert ts == [ts[0]] + ts[1..];
      var handed, token, rest := Deliver(ts[0], ts[1..], dropped);
      if handed {
        PairAppend(delivered, token, Live(rest, dropped), ms);
        delivered := delivered + [(token, ms[0])];
      }
      ts, ms := rest, ms[1..];
    }
  }
}
