/** The Codex app-server session: a pending table, an id counter and a notification queue, changed by requests, by
    the reader loop and by consumers in any interleaving. */
module CodexSession {
  import opened Common

  /** The id of a message: none, one that `int` turns into a number (a number or its text), or one on which `int`
      raises. */
  datatype MessageId = NoId | Number(value: int) | NotANumber

  /** A received message, decoded. Anything that carries an id is taken for a response. */
  datatype Message = Message(id: MessageId, error: Option<string>, result: Option<string>, text: string)

  /** How a request's future ends. */
  datatype Answer = Failed(error: string) | Returned(result: Option<string>)

  function AnswerOf(m: Message): Answer {
    if m.error.Some? then Failed(m.error.value) else Returned(m.result)
  }

  /** One step of the session, seen from outside: receiving brings a message, or fails. A consumer that finds the queue
      empty keeps waiting. */
  datatype Step = Opened | Closed | Request | Receive(message: Message) | ReceiveFails | Consume

  /** The reader task: there is none, it runs, or it has ended with an error. */
  datatype Reader = NoReader | Running | Broken

  /** The reader ends when receiving fails, and on an id that is no number. */
  predicate EndsReader(s: Step) {
    s.ReceiveFails? || (s.Receive? && s.message.id.NotANumber?)
  }

  /** The transport is there. */
  predicate IsOpenAfter(h: seq<Step>) {
    h != [] && (h[|h| - 1].Opened? || (!h[|h| - 1].Closed? && IsOpenAfter(h[..|h| - 1])))
  }

  function ReaderAfter(h: seq<Step>): Reader {
    if h == [] then NoReader
    else ReaderStep(ReaderAfter(h[..|h| - 1]), h[|h| - 1])
  }

  function ReaderStep(r: Reader, s: Step): Reader {
    if s.Opened? then Running else if s.Closed? then NoReader else if EndsReader(s) then Broken else r
  }

  /** Requests are made on an open session, and a running reader receives. Closing awaits the reader, so a reader that
      has failed makes it raise. */
  ghost predicate Allowed(h: seq<Step>) {
    forall i :: 0 <= i < |h| ==> StepAllowed(h[..i], h[i])
  }

  /** The session is open, and its reader is, as the history says, and the history is one the session allows. */
  ghost predicate Runs(isOpen: bool, reader: Reader, h: seq<Step>) {
    isOpen == IsOpenAfter(h) && reader == ReaderAfter(h) && Allowed(h)
  }

  predicate StepAllowed(h: seq<Step>, s: Step) {
    && (s.Request? ==> IsOpenAfter(h)) && (s.Receive? || s.ReceiveFails? ==> ReaderAfter(h).Running?)
    && (s.Closed? ==> !ReaderAfter(h).Broken?)
  }

  // ----- the specification: what a history of steps should have led to -----

  function RequestsIn(h: seq<Step>): nat {
    if h == [] then 0 else RequestsIn(h[..|h| - 1]) + if h[|h| - 1].Request? then 1 else 0
  }

  /** Whether a step is a message that carries this id. */
  predicate Replies(s: Step, id: int) {
    s.Receive? && s.message.id == Number(id)
  }

  /** Position p is where request `id` was made: the id-th request of the history. */
  ghost predicate RequestedAt(h: seq<Step>, id: int, p: int) {
    0 <= p < |h| && h[p].Request? && RequestsIn(h[..p + 1]) == id
  }

  /** Position i is the first message with this id after the request was made. */
  ghost predicate FirstReply(h: seq<Step>, id: int, p: int, i: int) {
    && RequestedAt(h, id, p) && p < i < |h| && Replies(h[i], id)
    && forall j :: p < j < i ==> !Replies(h[j], id)
  }

  /** The request was made and nothing with its id was received since. */
  ghost predicate Unanswered(h: seq<Step>, id: int) {
    exists p :: RequestedAt(h, id, p) && NoReplyAfter(h, id, p)
  }

  ghost predicate NoReplyAfter(h: seq<Step>, id: int, p: int) {
    forall j :: p < j < |h| && 0 <= j ==> !Replies(h[j], id)
  }

  /** The first message received with the request's id, after it was made, answers it. */
  ghost predicate AnsweredBy(h: seq<Step>, id: int, a: Answer) {
    exists p, i :: FirstReply(h, id, p, i) && a == AnswerOf(h[i].message)
  }

  /** The messages without an id, in the order received. */
  function Notifications(h: seq<Step>): seq<Message> {
    if h == [] then []
    else
      var earlier := Notifications(h[..|h| - 1]);
      var s := h[|h| - 1];
      if s.Receive? && s.message.id.NoId? then earlier + [s.message] else earlier
  }

  // ----- the session as it runs -----

  class CodexAppServerSession {
    var isOpen: bool
    var reader: Reader
    var nextId: nat
    var pending: set<int>
    var answers: map<int, Answer>
    var queue: seq<Message>
    ghost var delivered: seq<Message>
    ghost var history: seq<Step>

    /** `answers` stands for the completed futures, `delivered` for what consumers have taken. */
    ghost predicate Valid()
      reads this
    {
      && FuturesMatch(nextId, pending, answers, history) && delivered + queue == Notifications(history)
      && Runs(isOpen, reader, history)
    }

    constructor ()
      ensures Valid() && history == [] && !isOpen && reader.NoReader?
    {
      isOpen, reader := false, NoReader;
      nextId, pending, answers, queue, delivered, history := 0, {}, map[], [], [], [];
    }

    /** The transport is there, the reader loop is started, and the initialize request is made. */
    method Open() returns (id: int)
      requires Valid()
      modifies this`isOpen, this`reader, this`nextId, this`pending, this`history
      ensures Valid() && isOpen && reader.Running?
      ensures history == old(history) + [Opened, Request] && RequestedAt(history, id, |old(history)| + 1)
      ensures id !in old(pending) && id !in answers && pending == old(pending) + {id}
    {
      Attach();
      var drawn := MakeRequest();
      id := drawn.value;
      assert old(history) + [Opened] + [Request] == old(history) + [Opened, Request];
    }

    method Attach()
      requires Valid()
      modifies this`isOpen, this`reader, this`history
      ensures Valid() && isOpen && reader.Running? && history == old(history) + [Opened]
    {
      QuietStep(nextId, pending, answers, history, Opened);
      RunsOneMore(isOpen, reader, history, Opened);
      isOpen, reader := true, Running;
      history := history + [Opened];
    }

    /** The reader loop is cancelled and awaited, and the transport dropped; what is pending stays pending. A reader
        that has failed raises its error here, before the transport is dropped. */
    method Close() returns (raised: bool)
      requires Valid()
      modifies this`isOpen, this`reader, this`history
      ensures Valid() && (raised <==> old(reader).Broken?)
      ensures raised ==> isOpen == old(isOpen) && reader.Broken? && history == old(history)
      ensures !raised ==> !isOpen && reader.NoReader? && history == old(history) + [Closed]
    {
      if reader.Broken? { return true; }
      QuietStep(nextId, pending, answers, history, Closed);
      RunsOneMore(isOpen, reader, history, Closed);
      isOpen, reader := false, NoReader;
      history := history + [Closed];
      raised := false;
    }

    /** Draw the next id, register its future, send; refused on a session that is not open. */
    method MakeRequest() returns (id: Option<int>)
      requires Valid()
      modifies this`nextId, this`pending, this`history
      ensures Valid()
      ensures id.Some? <==> isOpen
      ensures id.None? ==> pending == old(pending) && history == old(history) && nextId == old(nextId)
      ensures id.Some? ==>
                && history == old(history) + [Request] && RequestedAt(history, id.value, |old(history)|)
                && id.value !in old(pending) && id.value !in answers && pending == old(pending) + {id.value}
    {
      if !isOpen { return None; }
      RequestIsNumbered(history, nextId + 1);
      var drawn := DrawId();
      id := Some(drawn);
    }

    method DrawId() returns (id: int)
      requires Valid() && isOpen
      modifies this`nextId, this`pending, this`history
      ensures Valid() && history == old(history) + [Request]
      ensures id == nextId == old(nextId) + 1
      ensures id !in old(pending) && id !in answers && pending == old(pending) + {id}
    {
      FuturesRequest(nextId, pending, answers, history);
      NotificationsSnoc(history, Request);
      RunsOneMore(isOpen, reader, history, Request);
      nextId := nextId + 1;
      id := nextId;
      pending := pending + {id};
      history := history + [Request];
    }

    /** One round of the reader loop; an id that is not a number raises and ends the loop. */
    method ReceiveMessage(m: Message)
      requires Valid() && reader.Running?
      modifies this`reader, this`pending, this`answers, this`queue, this`history
      ensures Valid() && history == old(history) + [Receive(m)]
      ensures reader == if m.id.NotANumber? then Broken else Running
      ensures m.id.Number? && m.id.value in old(pending) ==>
                pending == old(pending) - {m.id.value} && answers == old(answers)[m.id.value := AnswerOf(m)]
      ensures !m.id.Number? || m.id.value !in old(pending) ==> pending == old(pending) && answers == old(answers)
      ensures queue == if m.id.NoId? then old(queue) + [m] else old(queue)
    {
      FuturesReceive(nextId, pending, answers, history, m);
      NotificationsSnoc(history, Receive(m));
      RunsOneMore(isOpen, reader, history, Receive(m));
      match m.id {
        case NotANumber => reader := Broken;
        case Number(value) =>
          if value in pending {
            pending := pending - {value};
            answers := answers[value := AnswerOf(m)];
          }
        case NoId => queue := queue + [m];
      }
      history := history + [Receive(m)];
    }

    /** Receiving raises, and with it the reader loop. */
    method FailToReceive()
      requires Valid() && reader.Running?
      modifies this`reader, this`history
      ensures Valid() && reader.Broken? && history == old(history) + [ReceiveFails]
    {
      QuietStep(nextId, pending, answers, history, ReceiveFails);
      RunsOneMore(isOpen, reader, history, ReceiveFails);
      reader := Broken;
      history := history + [ReceiveFails];
    }

    method NextNotification() returns (m: Message)
      requires Valid() && queue != []
      modifies this`queue, this`delivered, this`history
      ensures Valid() && history == old(history) + [Consume]
      ensures m == old(queue)[0] && delivered == old(delivered) + [m] && queue == old(queue)[1..]
    {
      QuietStep(nextId, pending, answers, history, Consume);
      RunsOneMore(isOpen, reader, history, Consume);
      m := queue[0];
      queue := queue[1..];
      delivered := delivered + [m];
      history := history + [Consume];
    }
  }

  /** The ids drawn are 1..nextId; each is pending or answered, never both; the pending ones have had no message
      since they were made, and the answered ones hold the answer of the first. */
  ghost predicate FuturesMatch(nextId: nat, pending: set<int>, answers: map<int, Answer>, h: seq<Step>) {
    && nextId == RequestsIn(h)
    && (forall id :: id in pending || id in answers <==> 1 <= id <= nextId)
    && (forall id :: id in pending ==> id !in answers && Unanswered(h, id))
    && (forall id :: id in answers ==> AnsweredBy(h, id, answers[id]))
  }

  lemma FuturesRequest(nextId: nat, pending: set<int>, answers: map<int, Answer>, h: seq<Step>)
    requires FuturesMatch(nextId, pending, answers, h)
    ensures FuturesMatch(nextId + 1, pending + {nextId + 1}, answers, h + [Request])
  {
    assert (h + [Request])[..|h|] == h;
    RequestExtends(h, nextId + 1);
    forall id | id in pending ensures Unanswered(h + [Request], id) { StepExtends(h, Request, id); }
    forall id | id in answers ensures AnsweredBy(h + [Request], id, answers[id]) { StepExtends(h, Request, id); }
  }

  lemma FuturesReceive(nextId: nat, pending: set<int>, answers: map<int, Answer>, h: seq<Step>, m: Message)
    requires FuturesMatch(nextId, pending, answers, h)
    ensures if m.id.Number? && m.id.value in pending
            then FuturesMatch(nextId, pending - {m.id.value}, answers[m.id.value := AnswerOf(m)], h + [Receive(m)])
            else FuturesMatch(nextId, pending, answers, h + [Receive(m)])
  {
    assert (h + [Receive(m)])[..|h|] == h;
    forall id | id in pending
      ensures if m.id == Number(id) then AnsweredBy(h + [Receive(m)], id, AnswerOf(m))
              else Unanswered(h + [Receive(m)], id)
    {
      StepExtends(h, Receive(m), id);
    }
    forall id | id in answers ensures AnsweredBy(h + [Receive(m)], id, answers[id]) { StepExtends(h, Receive(m), id); }
  }

  /** Opening, closing, consuming and failing to receive make no request and bring no message. */
  lemma QuietStep(nextId: nat, pending: set<int>, answers: map<int, Answer>, h: seq<Step>, s: Step)
    requires FuturesMatch(nextId, pending, answers, h) && !s.Request? && !s.Receive?
    ensures FuturesMatch(nextId, pending, answers, h + [s]) && Notifications(h + [s]) == Notifications(h)
  {
    NotificationsSnoc(h, s);
    assert (h + [s])[..|h|] == h;
    forall id | id in pending ensures Unanswered(h + [s], id) { StepExtends(h, s, id); }
    forall id | id in answers ensures AnsweredBy(h + [s], id, answers[id]) { StepExtends(h, s, id); }
  }

  lemma RunsOneMore(isOpen: bool, reader: Reader, h: seq<Step>, s: Step)
    requires Runs(isOpen, reader, h) && StepAllowed(h, s)
    ensures Runs(s.Opened? || (!s.Closed? && isOpen), ReaderStep(reader, s), h + [s])
  {
    AllowedOneMore(h, s);
  }

  lemma AllowedOneMore(h: seq<Step>, s: Step)
    ensures Allowed(h) && StepAllowed(h, s) <==> Allowed(h + [s])
    ensures IsOpenAfter(h + [s]) <==> s.Opened? || (!s.Closed? && IsOpenAfter(h))
    ensures ReaderAfter(h + [s]) == ReaderStep(ReaderAfter(h), s)
  {
    var more := h + [s];
    assert more[..|h|] == h;
    forall i | 0 <= i < |h| ensures more[..i] == h[..i] {}
    if Allowed(more) {
      assert StepAllowed(more[..|h|], more[|h|]);
      forall i | 0 <= i < |h| ensures StepAllowed(h[..i], h[i]) { assert StepAllowed(more[..i], more[i]); }
    }
  }

  lemma NotificationsSnoc(h: seq<Step>, s: Step)
    ensures Notifications(h + [s]) ==
            if s.Receive? && s.message.id.NoId? then Notifications(h) + [s.message] else Notifications(h)
  {
    assert (h + [s])[..|h|] == h;
  }

  // ----- histories grow by one step -----

  lemma RequestsInPrefix(h: seq<Step>, s: Step, n: nat)
    requires n <= |h|
    ensures (h + [s])[..n] == h[..n]
  {
  }

  lemma RequestIsNumbered(h: seq<Step>, id: int)
    requires id == RequestsIn(h) + 1
    ensures RequestedAt(h + [Request], id, |h|)
  {
    var more := h + [Request];
    assert more[..|h| + 1] == more && more[..|h|] == h;
  }

  lemma RequestExtends(h: seq<Step>, id: int)
    requires id == RequestsIn(h) + 1
    ensures Unanswered(h + [Request], id)
  {
    RequestIsNumbered(h, id);
    assert NoReplyAfter(h + [Request], id, |h|);
  }

  /** A step answers the waiting request whose id it carries, and leaves every other request as it was. */
  lemma StepExtends(h: seq<Step>, s: Step, id: int)
    ensures Unanswered(h, id) && !Replies(s, id) ==> Unanswered(h + [s], id)
    ensures Unanswered(h, id) && Replies(s, id) ==> AnsweredBy(h + [s], id, AnswerOf(s.message))
    ensures forall a :: AnsweredBy(h, id, a) ==> AnsweredBy(h + [s], id, a)
  {
    var more := h + [s];
    forall p | RequestedAt(h, id, p) ensures RequestedAt(more, id, p) {
      RequestsInPrefix(h, s, p + 1);
    }
    if p :| RequestedAt(h, id, p) && NoReplyAfter(h, id, p) {
      if Replies(s, id) {
        assert FirstReply(more, id, p, |h|);
      } else {
        assert NoReplyAfter(more, id, p);
      }
    }
    forall a | AnsweredBy(h, id, a) ensures AnsweredBy(more, id, a) {
      var p, i :| FirstReply(h, id, p, i) && a == AnswerOf(h[i].message);
      assert FirstReply(more, id, p, i);
    }
  }

  // ----- the answer is determined by the history -----

  lemma {:induction false} RequestsInMonotone(h: seq<Step>, m: nat, n: nat)
    requires m <= n <= |h|
    ensures RequestsIn(h[..m]) <= RequestsIn(h[..n])
  {
    if m < n {
      RequestsInMonotone(h, m, n - 1);
      assert h[..n][..n - 1] == h[..n - 1];
    }
  }

  /** An id belongs to one request: ids are never reused. */
  lemma RequestedOnce(h: seq<Step>, id: int, p: int, q: int)
    requires RequestedAt(h, id, p) && RequestedAt(h, id, q)
    ensures p == q
  {
    if p < q { LaterRequestLargerId(h, id, p, id, q); }
    if q < p { LaterRequestLargerId(h, id, q, id, p); }
  }

  lemma LaterRequestLargerId(h: seq<Step>, a: int, p: int, b: int, q: int)
    requires RequestedAt(h, a, p) && RequestedAt(h, b, q) && p < q
    ensures a < b
  {
    RequestsInMonotone(h, p + 1, q);
    assert h[..q + 1][..q] == h[..q];
  }

  /** At any time a request is answered exactly when a message with its id arrived after it was made, and then by
      the first such message; later messages with the id, and messages before it, have no say. */
  lemma AnswerIsFirstReply(h: seq<Step>, id: int, a: Answer, p: int, i: int)
    ensures AnsweredBy(h, id, a) && FirstReply(h, id, p, i) ==>
              a == if h[i].message.error.Some? then Failed(h[i].message.error.value) else Returned(h[i].message.result)
    ensures !(AnsweredBy(h, id, a) && Unanswered(h, id))
  {
    if AnsweredBy(h, id, a) {
      var q, j :| FirstReply(h, id, q, j) && a == AnswerOf(h[j].message);
      if FirstReply(h, id, p, i) {
        RequestedOnce(h, id, p, q);
        SameFirst(h, id, p, i, j);
      }
      if Unanswered(h, id) {
        var r :| RequestedAt(h, id, r) && NoReplyAfter(h, id, r);
        RequestedOnce(h, id, q, r);
      }
    }
  }

  lemma SameFirst(h: seq<Step>, id: int, p: int, i: int, j: int)
    requires FirstReply(h, id, p, i) && FirstReply(h, id, p, j)
    ensures i == j
  {
  }

  // ----- what stays unanswered -----

  ghost predicate NoOpening(more: seq<Step>) {
    forall i :: 0 <= i < |more| ==> !more[i].Opened?
  }

  /** Without a reader and without a new opening, no message is received, and what is unanswered stays so. */
  lemma {:induction false} NobodyReads(h: seq<Step>, more: seq<Step>, id: int)
    requires Unanswered(h, id) && !ReaderAfter(h).Running? && Allowed(h + more) && NoOpening(more)
    ensures Unanswered(h + more, id) && !ReaderAfter(h + more).Running?
  {
    if more == [] {
      assert h + more == h;
    } else {
      var n := |more| - 1;
      assert (h + more[..n]) + [more[n]] == h + more;
      AllowedOneMore(h + more[..n], more[n]);
      NobodyReads(h, more[..n], id);
      StepExtends(h + more[..n], more[n], id);
    }
  }

  /** A request that is unanswered stays unanswered in every continuation without a new opening if and only if the
      reader does not run: the session was closed, or the reader has failed, the request perhaps made after that.
      While it runs, the next message can answer. */
  lemma {:induction false} StaysUnansweredExactly(h: seq<Step>, id: int)
    requires Allowed(h) && Unanswered(h, id)
    ensures (forall more :: Allowed(h + more) && NoOpening(more) ==> Unanswered(h + more, id))
       <==> !ReaderAfter(h).Running?
  {
    if ReaderAfter(h).Running? {
      var reply := Receive(Message(Number(id), None, None, ""));
      AllowedOneMore(h, reply);
      assert Allowed(h + [reply]) && NoOpening([reply]);
      StepExtends(h, reply, id);
      AnswerIsFirstReply(h + [reply], id, AnswerOf(reply.message), 0, 0);
    } else {
      forall more | Allowed(h + more) && NoOpening(more) ensures Unanswered(h + more, id) {
        NobodyReads(h, more, id);
      }
    }
  }
  // ----- what cannot be closed -----

  lemma {:induction false} StaysFailed(h: seq<Step>, more: seq<Step>)
    requires ReaderAfter(h).Broken? && IsOpenAfter(h) && Allowed(h + more) && NoOpening(more)
    ensures ReaderAfter(h + more).Broken? && IsOpenAfter(h + more)
  {
    if more == [] {
      assert h + more == h;
    } else {
      var n := |more| - 1;
      assert (h + more[..n]) + [more[n]] == h + more;
      AllowedOneMore(h + more[..n], more[n]);
      StaysFailed(h, more[..n]);
    }
  }

  /** An open session stays open in every continuation without a new opening if and only if its reader has failed:
      closing it raises then, each time. */
  lemma {:induction false} CannotBeClosedExactly(h: seq<Step>)
    requires Allowed(h) && IsOpenAfter(h)
    ensures (forall more :: Allowed(h + more) && NoOpening(more) ==> IsOpenAfter(h + more))
       <==> ReaderAfter(h).Broken?
  {
    if ReaderAfter(h).Broken? {
      forall more | Allowed(h + more) && NoOpening(more) ensures IsOpenAfter(h + more) { StaysFailed(h, more); }
    } else {
      AllowedOneMore(h, Closed);
      assert Allowed(h + [Closed]) && NoOpening([Closed]) && !IsOpenAfter(h + [Closed]);
    }
  }

  /** A session is opened, an id that is no number ends its reader, and the session still takes a request: nothing that
      can follow without a new opening answers it. */
  lemma RequestCanWaitForever(m: Message, more: seq<Step>)
    requires m.id.NotANumber?
    requires Allowed([Opened, Request, Receive(m), Request] + more) && NoOpening(more)
    ensures Unanswered([Opened, Request, Receive(m), Request] + more, 2)
    ensures Allowed([Opened, Request, Receive(m), Request]) && IsOpenAfter([Opened, Request, Receive(m), Request])
  {
    var h := [Opened, Request, Receive(m)];
    assert [] + [Opened] == [Opened] && [Opened] + [Request] == [Opened, Request];
    assert [Opened, Request] + [Receive(m)] == h && h + [Request] == [Opened, Request, Receive(m), Request];
    AllowedOneMore([], Opened);
    AllowedOneMore([Opened], Request);
    AllowedOneMore([Opened, Request], Receive(m));
    AllowedOneMore(h, Request);
    assert h[..2] == [Opened, Request] && [Opened, Request][..1] == [Opened] && [Opened][..0] == [];
    RequestExtends(h, 2);
    StaysUnansweredExactly(h + [Request], 2);
  }
}
