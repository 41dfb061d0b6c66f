/** What a history of sessions writes into one attempt's row, and what the events among them say about the attempt,
    session by session; and what the row holds in the end, read off these marks. */
module AttemptMarks {
  import opened Common
  import opened RuntimeContracts
  import opened RuntimePersistence

  /** One session, seen from one attempt. On its row: the status it is created with, the closing of its run, then the
      status written, and the start and end given to it. On its record: the time, status and end that an event naming
      the attempt with its task brings. */
  datatype Mark = Mark(
    created: Option<TaskStatus>, closing: Option<Closing>, write: Option<TaskStatus>,
    start: Option<int>, end: Option<int>,
    namedAt: Option<int>, named: Option<TaskStatus>, namedEnd: Option<int>)

  /** The fields of a row that sessions overwrite. */
  datatype View = View(status: TaskStatus, start: Option<int>, end: Option<int>)

  // ----- the row, session by session -----

  function Base(v: Option<View>, m: Mark): Option<View> {
    if v.None? && m.created.Some? then Some(View(m.created.value, None, None)) else v
  }

  function Closed(v: View, m: Mark): View {
    if m.closing.Some? && InFlight(v.status)
    then View(ClosingStatus(m.closing.value.status), v.start, Latest(Some(m.closing.value.at), v.end))
    else v
  }

  function Written(v: View, m: Mark): View {
    View(if m.write.Some? then m.write.value else v.status, Latest(m.start, v.start), Latest(v.end, m.end))
  }

  function Marked(v: Option<View>, m: Mark): Option<View> {
    var base := Base(v, m);
    if base.None? then None else Some(Written(Closed(base.value, m), m))
  }

  function Fold(ms: seq<Mark>): Option<View> {
    if ms == [] then None else Marked(Fold(ms[..|ms| - 1]), ms[|ms| - 1])
  }

  /** A row is created once, and nothing is written into it before. */
  ghost predicate WellMarked(ms: seq<Mark>) {
    forall i :: 0 <= i < |ms| ==> MarkFits(Fold(ms[..i]), ms[i])
  }

  ghost predicate MarkFits(v: Option<View>, m: Mark) {
    && (m.created.Some? ==> v.None?)
    && (v.None? && m.created.None? ==> m.closing.None? && m.write.None? && m.start.None? && m.end.None?)
  }

  // ----- status: the last word -----

  /** The status a session puts into the row whatever it held. */
  function Said(m: Mark): Option<TaskStatus> {
    if m.write.Some? then m.write else m.created
  }

  /** Session p is the last to put a status into the row. */
  ghost predicate LastSaid(ms: seq<Mark>, p: int) {
    && 0 <= p < |ms| && Said(ms[p]).Some?
    && forall i :: p < i < |ms| ==> Said(ms[i]).None?
  }

  /** Session c closes the run after session p has put its status; a session closes before it writes. */
  predicate ClosesAfter(ms: seq<Mark>, p: int, c: int)
    requires 0 <= p < |ms|
  {
    0 <= c < |ms| && ms[c].closing.Some? && (p < c || (p == c && ms[p].write.None?))
  }

  ghost predicate FirstClosing(ms: seq<Mark>, p: int, c: int)
    requires 0 <= p < |ms|
  {
    ClosesAfter(ms, p, c) && forall i :: 0 <= i < c ==> !ClosesAfter(ms, p, i)
  }

  /** What becomes of the status that session p puts: it stays, unless it is in flight and the run is closed after. */
  ghost predicate Becomes(ms: seq<Mark>, p: int, status: TaskStatus)
    requires 0 <= p < |ms| && Said(ms[p]).Some?
  {
    if InFlight(Said(ms[p]).value) && exists c :: ClosesAfter(ms, p, c)
    then exists c :: FirstClosing(ms, p, c) && status == ClosingStatus(ms[c].closing.value.status)
    else status == Said(ms[p]).value
  }

  /** This status is the last word of the history. */
  ghost predicate FinalStatus(ms: seq<Mark>, status: TaskStatus) {
    exists p :: LastSaid(ms, p) && Becomes(ms, p, status)
  }

  lemma LastSaidOnce(ms: seq<Mark>, p: int, q: int)
    requires LastSaid(ms, p) && LastSaid(ms, q)
    ensures p == q
  {
  }

  lemma BecomesOnce(ms: seq<Mark>, p: int, a: TaskStatus, b: TaskStatus)
    requires 0 <= p < |ms| && Said(ms[p]).Some? && Becomes(ms, p, a) && Becomes(ms, p, b)
    ensures a == b
  {
  }

  /** There is at most one last word. */
  lemma FinalStatusOnce(ms: seq<Mark>, a: TaskStatus, b: TaskStatus)
    requires FinalStatus(ms, a) && FinalStatus(ms, b)
    ensures a == b
  {
    var p :| LastSaid(ms, p) && Becomes(ms, p, a);
    var q :| LastSaid(ms, q) && Becomes(ms, q, b);
    LastSaidOnce(ms, p, q);
    BecomesOnce(ms, p, a, b);
  }

  /** A session that puts no status: a status in flight is closed by it, if it closes the run and none did before. */
  lemma BecomesOneMore(ms: seq<Mark>, m: Mark, p: int, status: TaskStatus)
    requires LastSaid(ms, p) && Becomes(ms, p, status) && Said(m).None?
    ensures LastSaid(ms + [m], p)
    ensures Becomes(ms + [m], p,
              if m.closing.Some? && InFlight(status) then ClosingStatus(m.closing.value.status) else status)
  {
    var more := ms + [m];
    forall i | 0 <= i < |ms| ensures ClosesAfter(more, p, i) <==> ClosesAfter(ms, p, i) {}
    if c :| ClosesAfter(ms, p, c) {
      if i :| FirstClosing(ms, p, i) { assert FirstClosing(more, p, i); }
    } else if m.closing.Some? {
      assert ClosesAfter(more, p, |ms|) && FirstClosing(more, p, |ms|);
    }
  }

  /** A session that writes has the last word; one that only creates may close what it created. */
  lemma SaidLast(ms: seq<Mark>, m: Mark)
    requires Said(m).Some?
    ensures LastSaid(ms + [m], |ms|)
    ensures Becomes(ms + [m], |ms|,
              if m.write.Some? then m.write.value
              else if m.closing.Some? && InFlight(m.created.value) then ClosingStatus(m.closing.value.status)
              else m.created.value)
  {
    var more := ms + [m];
    if m.write.None? && m.closing.Some? { assert ClosesAfter(more, |ms|, |ms|) && FirstClosing(more, |ms|, |ms|); }
  }

  lemma WellMarkedPrefix(ms: seq<Mark>)
    requires ms != [] && WellMarked(ms)
    ensures WellMarked(ms[..|ms| - 1]) && MarkFits(Fold(ms[..|ms| - 1]), ms[|ms| - 1])
  {
    var init := ms[..|ms| - 1];
    forall i | 0 <= i < |init| ensures MarkFits(Fold(init[..i]), init[i]) {
      assert init[..i] == ms[..i] && MarkFits(Fold(ms[..i]), ms[i]);
    }
  }

  /** The row holds the last word. */
  lemma {:induction false} StatusIsFinal(ms: seq<Mark>)
    requires WellMarked(ms) && Fold(ms).Some?
    ensures FinalStatus(ms, Fold(ms).value.status)
  {
    var init, m := ms[..|ms| - 1], ms[|ms| - 1];
    WellMarkedPrefix(ms);
    assert ms == init + [m];
    if Said(m).Some? {
      SaidLast(init, m);
      assert Becomes(ms, |init|, Fold(ms).value.status);
    } else {
      StatusIsFinal(init);
      var p :| LastSaid(init, p) && Becomes(init, p, Fold(init).value.status);
      BecomesOneMore(init, m, p, Fold(init).value.status);
    }
  }

  // ----- end and start -----

  /** Session i is the last that gives the row an end whatever it held. */
  ghost predicate LastEnded(ms: seq<Mark>, p: int) {
    && 0 <= p < |ms| && ms[p].end.Some?
    && forall i :: p < i < |ms| ==> ms[i].end.None?
  }

  /** Session c closes the run and finds the row in flight: it was just created so, or that was the last word. */
  ghost predicate FindsInFlight(ms: seq<Mark>, c: int) {
    && 0 <= c < |ms| && ms[c].closing.Some?
    && if ms[c].created.Some? then InFlight(ms[c].created.value)
       else exists status :: FinalStatus(ms[..c], status) && InFlight(status)
  }

  ghost predicate FirstFinding(ms: seq<Mark>, c: int) {
    FindsInFlight(ms, c) && forall i :: 0 <= i < c ==> !FindsInFlight(ms, i)
  }

  /** The end of the history: the last one given; or the time of the first closing that found the row in flight, when
      none was given; or nothing. */
  ghost predicate FinalEnd(ms: seq<Mark>, end: Option<int>) {
    if exists p :: LastEnded(ms, p) then exists p :: LastEnded(ms, p) && end == ms[p].end
    else if exists c :: FirstFinding(ms, c) then exists c :: FirstFinding(ms, c) && end == Some(ms[c].closing.value.at)
    else end == None
  }

  /** A closing finds the row in flight exactly when the row before it is. */
  lemma FindsExactly(ms: seq<Mark>)
    requires ms != [] && WellMarked(ms)
    ensures var init, m := ms[..|ms| - 1], ms[|ms| - 1];
            FindsInFlight(ms, |init|) <==>
              m.closing.Some? && Base(Fold(init), m).Some? && InFlight(Base(Fold(init), m).value.status)
  {
    var init, m := ms[..|ms| - 1], ms[|ms| - 1];
    WellMarkedPrefix(ms);
    if m.created.None? && Fold(init).Some? {
      StatusIsFinal(init);
      forall status | FinalStatus(init, status) ensures status == Fold(init).value.status {
        FinalStatusOnce(init, status, Fold(init).value.status);
      }
    }
  }

  lemma FindsBefore(ms: seq<Mark>, m: Mark, c: int)
    requires c < |ms|
    ensures FindsInFlight(ms + [m], c) <==> FindsInFlight(ms, c)
    ensures FirstFinding(ms + [m], c) <==> FirstFinding(ms, c)
  {
    var more := ms + [m];
    forall i | 0 <= i < |ms| ensures FindsInFlight(more, i) <==> FindsInFlight(ms, i) {
      assert more[..i] == ms[..i];
    }
  }

  lemma EndedBefore(ms: seq<Mark>, m: Mark)
    requires m.end.None?
    ensures forall p :: LastEnded(ms + [m], p) <==> LastEnded(ms, p)
  {
    forall i | 0 <= i < |ms| ensures (ms + [m])[i] == ms[i] {}
  }

  lemma {:induction false} NoFirstNoFinding(ms: seq<Mark>, n: nat)
    requires n <= |ms| && forall c :: !FirstFinding(ms, c)
    ensures forall c :: c < n ==> !FindsInFlight(ms, c)
  {
    if n > 0 {
      NoFirstNoFinding(ms, n - 1);
      assert !FirstFinding(ms, n - 1);
    }
  }

  function ClosingAt(m: Mark): int {
    if m.closing.Some? then m.closing.value.at else 0
  }

  /** A session that gives no end: the first closing that finds the row in flight does, if none was given. */
  lemma FinalEndOneMore(ms: seq<Mark>, m: Mark, end: Option<int>)
    requires FinalEnd(ms, end) && m.end.None?
    ensures FinalEnd(ms + [m],
              if FindsInFlight(ms + [m], |ms|) then Latest(Some(ClosingAt(m)), end) else end)
  {
    var more := ms + [m];
    EndedBefore(ms, m);
    forall c | c < |ms| { FindsBefore(ms, m, c); }
    if p :| LastEnded(ms, p) {
      assert LastEnded(more, p);
    } else if c :| FirstFinding(ms, c) {
      assert FirstFinding(more, c);
      forall i | FirstFinding(more, i) ensures i == c {}
    } else {
      NoFirstNoFinding(ms, |ms|);
      if FindsInFlight(more, |ms|) { assert FirstFinding(more, |ms|); }
    }
  }

  /** The row holds the end of the history. */
  lemma {:induction false} EndIsFinal(ms: seq<Mark>)
    requires WellMarked(ms)
    ensures FinalEnd(ms, EndOf(Fold(ms)))
  {
    if ms != [] {
      var init, m := ms[..|ms| - 1], ms[|ms| - 1];
      WellMarkedPrefix(ms);
      EndIsFinal(init);
      assert ms == init + [m];
      EndStep(Fold(init), m);
      if m.end.Some? {
        GivenEndIsFinal(init, m);
      } else {
        FinalEndOneMore(init, m, EndOf(Fold(init)));
        FindsExactly(ms);
      }
    }
  }

  lemma GivenEndIsFinal(ms: seq<Mark>, m: Mark)
    requires m.end.Some?
    ensures FinalEnd(ms + [m], m.end)
  {
    assert LastEnded(ms + [m], |ms|);
  }

  /** The end after one session: given, or by a closing that finds the row in flight without an end, or as before. */
  lemma EndStep(v: Option<View>, m: Mark)
    requires MarkFits(v, m)
    ensures EndOf(Marked(v, m)) ==
            if m.end.Some? then m.end
            else if m.closing.Some? && Base(v, m).Some? && InFlight(Base(v, m).value.status)
            then Latest(Some(m.closing.value.at), EndOf(v))
            else EndOf(v)
  {
  }

  // ----- first and last of a list -----

  ghost predicate LastSome<T>(xs: seq<Option<T>>, p: int) {
    0 <= p < |xs| && xs[p].Some? && forall i :: p < i < |xs| ==> xs[i].None?
  }

  ghost predicate FirstSome<T>(xs: seq<Option<T>>, p: int) {
    0 <= p < |xs| && xs[p].Some? && forall i :: 0 <= i < p ==> xs[i].None?
  }

  /** x is the last value of the list, or nothing when there is none. */
  ghost predicate IsLast<T>(xs: seq<Option<T>>, x: Option<T>) {
    if x.Some? then exists p :: LastSome(xs, p) && xs[p] == x else forall i :: 0 <= i < |xs| ==> xs[i].None?
  }

  ghost predicate IsFirst<T>(xs: seq<Option<T>>, x: Option<T>) {
    if x.Some? then exists p :: FirstSome(xs, p) && xs[p] == x else forall i :: 0 <= i < |xs| ==> xs[i].None?
  }

  lemma IsLastOnce<T>(xs: seq<Option<T>>, x: Option<T>, y: Option<T>)
    requires IsLast(xs, x) && IsLast(xs, y)
    ensures x == y
  {
  }

  lemma IsFirstOnce<T>(xs: seq<Option<T>>, x: Option<T>, y: Option<T>)
    requires IsFirst(xs, x) && IsFirst(xs, y)
    ensures x == y
  {
  }

  lemma IsLastOneMore<T>(xs: seq<Option<T>>, x: Option<T>, y: Option<T>)
    requires IsLast(xs, x)
    ensures IsLast(xs + [y], Latest(x, y))
  {
    var more := xs + [y];
    if y.Some? {
      assert LastSome(more, |xs|);
    } else if x.Some? {
      var p :| LastSome(xs, p) && xs[p] == x;
      assert LastSome(more, p);
    }
  }

  lemma IsFirstOneMore<T>(xs: seq<Option<T>>, x: Option<T>, y: Option<T>)
    requires IsFirst(xs, x)
    ensures IsFirst(xs + [y], Latest(y, x))
  {
    var more := xs + [y];
    if x.Some? {
      var p :| FirstSome(xs, p) && xs[p] == x;
      assert FirstSome(more, p);
    } else if y.Some? {
      assert FirstSome(more, |xs|);
    }
  }

  // ----- the lists of a history -----

  function Starts(ms: seq<Mark>): seq<Option<int>> {
    seq(|ms|, i requires 0 <= i < |ms| => ms[i].start)
  }

  function NamedTimes(ms: seq<Mark>): seq<Option<int>> {
    seq(|ms|, i requires 0 <= i < |ms| => ms[i].namedAt)
  }

  function NamedStatuses(ms: seq<Mark>): seq<Option<TaskStatus>> {
    seq(|ms|, i requires 0 <= i < |ms| => ms[i].named)
  }

  function NamedEnds(ms: seq<Mark>): seq<Option<int>> {
    seq(|ms|, i requires 0 <= i < |ms| => ms[i].namedEnd)
  }

  function StartOf(v: Option<View>): Option<int> {
    if v.Some? then v.value.start else None
  }

  function EndOf(v: Option<View>): Option<int> {
    if v.Some? then v.value.end else None
  }

  lemma StartStep(v: Option<View>, m: Mark)
    requires MarkFits(v, m)
    ensures StartOf(Marked(v, m)) == Latest(m.start, StartOf(v))
  {
  }

  /** The row starts with the first session that gives it a start. */
  lemma {:induction false} StartIsFirst(ms: seq<Mark>)
    requires WellMarked(ms)
    ensures IsFirst(Starts(ms), StartOf(Fold(ms)))
  {
    if ms != [] {
      var init, m := ms[..|ms| - 1], ms[|ms| - 1];
      WellMarkedPrefix(ms);
      StartIsFirst(init);
      StartStep(Fold(init), m);
      IsFirstOneMore(Starts(init), StartOf(Fold(init)), m.start);
      assert Starts(ms) == Starts(init) + [m.start];
    }
  }

  /** What the record of the same history holds. */
  datatype Record = Record(status: Option<TaskStatus>, start: Option<int>, end: Option<int>)

  function Told(ms: seq<Mark>): Record {
    if ms == [] then Record(None, None, None)
    else
      var r, m := Told(ms[..|ms| - 1]), ms[|ms| - 1];
      Record(Latest(r.status, m.named), Latest(m.namedAt, r.start), Latest(r.end, m.namedEnd))
  }

  lemma {:induction false} ToldIs(ms: seq<Mark>)
    ensures IsLast(NamedStatuses(ms), Told(ms).status)
    ensures IsFirst(NamedTimes(ms), Told(ms).start)
    ensures IsLast(NamedEnds(ms), Told(ms).end)
  {
    if ms != [] {
      var init, m := ms[..|ms| - 1], ms[|ms| - 1];
      ToldIs(init);
      IsLastOneMore(NamedStatuses(init), Told(init).status, m.named);
      IsFirstOneMore(NamedTimes(init), Told(init).start, m.namedAt);
      IsLastOneMore(NamedEnds(init), Told(init).end, m.namedEnd);
      assert NamedStatuses(ms) == NamedStatuses(init) + [m.named];
      assert NamedTimes(ms) == NamedTimes(init) + [m.namedAt];
      assert NamedEnds(ms) == NamedEnds(init) + [m.namedEnd];
    }
  }

  // ----- when row and record agree -----

  /** The last status an event names is the last word of the history. */
  ghost predicate StatusesMeet(ms: seq<Mark>) {
    exists q :: LastSome(NamedStatuses(ms), q) && FinalStatus(ms, ms[q].named.value)
  }

  /** The first time an event names is the first start any session gives. */
  ghost predicate StartsMeet(ms: seq<Mark>) {
    exists at :: IsFirst(Starts(ms), at) && IsFirst(NamedTimes(ms), at)
  }

  /** The last end an event names is the end of the history. */
  ghost predicate EndsMeet(ms: seq<Mark>) {
    exists at :: FinalEnd(ms, at) && IsLast(NamedEnds(ms), at)
  }

  lemma FinalEndOnce(ms: seq<Mark>, a: Option<int>, b: Option<int>)
    requires FinalEnd(ms, a) && FinalEnd(ms, b)
    ensures a == b
  {
    if p :| LastEnded(ms, p) {
      forall i | LastEnded(ms, i) ensures i == p {}
    } else if c :| FirstFinding(ms, c) {
      forall i | FirstFinding(ms, i) ensures i == c {}
    }
  }

  lemma StatusMeetsExactly(ms: seq<Mark>)
    requires WellMarked(ms) && Fold(ms).Some?
    ensures Some(Fold(ms).value.status) == Told(ms).status <==> StatusesMeet(ms)
  {
    StatusIsFinal(ms);
    ToldIs(ms);
    var v := Fold(ms).value.status;
    if q :| LastSome(NamedStatuses(ms), q) && FinalStatus(ms, ms[q].named.value) {
      FinalStatusOnce(ms, v, ms[q].named.value);
      assert IsLast(NamedStatuses(ms), ms[q].named);
      IsLastOnce(NamedStatuses(ms), Told(ms).status, ms[q].named);
    }
  }

  lemma StartMeetsExactly(ms: seq<Mark>)
    requires WellMarked(ms)
    ensures StartOf(Fold(ms)) == Told(ms).start <==> StartsMeet(ms)
  {
    StartIsFirst(ms);
    ToldIs(ms);
    if at :| IsFirst(Starts(ms), at) && IsFirst(NamedTimes(ms), at) {
      IsFirstOnce(Starts(ms), at, StartOf(Fold(ms)));
      IsFirstOnce(NamedTimes(ms), at, Told(ms).start);
    }
  }

  lemma EndMeetsExactly(ms: seq<Mark>)
    requires WellMarked(ms)
    ensures EndOf(Fold(ms)) == Told(ms).end <==> EndsMeet(ms)
  {
    EndIsFinal(ms);
    ToldIs(ms);
    if at :| FinalEnd(ms, at) && IsLast(NamedEnds(ms), at) {
      FinalEndOnce(ms, at, EndOf(Fold(ms)));
      IsLastOnce(NamedEnds(ms), at, Told(ms).end);
    }
  }
}
