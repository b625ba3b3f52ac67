/** The reactor of selectTask.py: `CountdownTimer` and the bookkeeping of
    `NetworkSelectTask` (its selectable set, transfer counters and timer)
    around one `select` call per turn.

    Selectables are values of any type `S`; what they do when asked
    (`needsRead`, `performRead`, ...) and whether a one-descriptor
    zero-timeout `select` accepts them are fields of a `Selectables`
    record.  The `select` call itself, the clock and `time.sleep` are
    parameters: a turn returns the `select` call it made and the delay it
    asked for instead of performing them. */
module SelectTask {
  import opened Base
  import opened SocketErrors

  // ------------------------------------------------------------------ timer

  /** `CountdownTimer`: ready once more than `duration` seconds have passed
      since the last touch. */
  datatype Timer = Timer(duration: real, lastTimestamp: real)

  const DefaultDuration: real := 0.1

  function NewTimer(duration: real): (t: Timer)
    ensures t.duration == duration && t.lastTimestamp == 0.0
  {
    Timer(duration, 0.0)
  }

  /** `isReady`, with `now` the clock reading it takes. */
  predicate IsReady(t: Timer, now: real) {
    t.lastTimestamp < now - t.duration
  }

  /** `touch`: restart the countdown at `now`.  The timer is then ready at
      exactly the instants more than `duration` after `now`. */
  function Touch(t: Timer, now: real): (r: Timer)
    ensures r.duration == t.duration && r.lastTimestamp == now
    ensures forall later: real :: IsReady(r, later) <==> later > now + t.duration
  {
    t.(lastTimestamp := now)
  }

  /** A ready timer stays ready as the clock advances. */
  lemma ReadyStaysReady(t: Timer, now: real, later: real)
    requires IsReady(t, now) && now <= later
    ensures IsReady(t, later)
  {
  }

  // ------------------------------------------------------------ selectables

  /** The behaviour of the selectables. */
  datatype Selectables<!S> = Selectables(
    trial: S -> Option<PyError>, // what `select([s], [s], [s], 0)` raises, if anything
    needsRead: S -> bool,
    needsWrite: S -> bool,
    performRead: S -> Result<int>,   // the byte count, or what the call raises
    performWrite: S -> Result<int>)

  /** `_verifySelectable(s)` without re-raising: the trial select
      succeeds. */
  predicate Verifies<S>(b: Selectables<S>, s: S) {
    b.trial(s).None?
  }

  /** The task's state.  `_selectables` and `_timer` are created lazily;
      every reader treats a missing set as an empty one and a missing timer
      as a fresh `CountdownTimer()`, so both are present from the start
      here. */
  datatype Task<S(==)> = Task(selectables: set<S>, recvBytes: int, sentBytes: int, timer: Timer)

  function NewTask<S(==)>(): (t: Task<S>)
    ensures t.selectables == {} && t.recvBytes == 0 && t.sentBytes == 0
    ensures t.timer == NewTimer(DefaultDuration)
  {
    Task({}, 0, 0, NewTimer(DefaultDuration))
  }

  /** `add`: insert `s` only after its trial select succeeds; otherwise
      the trial's exception propagates and nothing changes. */
  function Add<S(==)>(t: Task<S>, s: S, b: Selectables<S>): (r: Result<Task<S>>)
    ensures r.Ok? <==> Verifies(b, s)
    ensures r.Err? ==> r.error == b.trial(s).value
    ensures r.Ok? ==> r.value.selectables == t.selectables + {s}
    ensures r.Ok? ==> r.value.(selectables := t.selectables) == t
    ensures r.Ok? && s in t.selectables ==> r.value == t
  {
    match b.trial(s)
    case Some(e) => Err(e)
    case None => Ok(t.(selectables := t.selectables + {s}))
  }

  /** `remove`: `set.discard`, so removing an absent member changes
      nothing. */
  function Remove<S(==)>(t: Task<S>, s: S): (r: Task<S>)
    ensures s !in r.selectables
    ensures r.selectables <= t.selectables
    ensures forall x | x in t.selectables && x != s :: x in r.selectables
    ensures r.(selectables := t.selectables) == t
    ensures s !in t.selectables ==> r == t
  {
    t.(selectables := t.selectables - {s})
  }

  /** Removing a member that `add` just inserted restores the task. */
  lemma RemoveAfterAdd<S>(t: Task<S>, s: S, b: Selectables<S>)
    requires s !in t.selectables && Verifies(b, s)
    ensures Add(t, s, b).Ok? && Remove(Add(t, s, b).value, s) == t
  {
    assert t.selectables + {s} - {s} == t.selectables;
  }

  /** Adding back a removed member that still verifies restores the
      task. */
  lemma AddAfterRemove<S>(t: Task<S>, s: S, b: Selectables<S>)
    requires s in t.selectables && Verifies(b, s)
    ensures Add(Remove(t, s), s, b) == Ok(t)
  {
    assert t.selectables - {s} + {s} == t.selectables;
  }

  /** `filterSelectables` as written: the generator tests the unbound name
      `selectable`, so the first member it looks at raises `NameError`;
      only an empty set gets through. */
  function FilterAsWritten<S(==)>(t: Task<S>, b: Selectables<S>): (r: Result<Task<S>>)
    ensures r.Ok? <==> t.selectables == {}
    ensures r.Ok? ==> r.value == t
  {
    if t.selectables == {} then Ok(t) else Err(NameError)
  }

  /** Any non-empty set makes the written filter raise, whatever its
      members do. */
  lemma FilterAsWrittenRaises<S>(t: Task<S>, b: Selectables<S>, s: S)
    requires s in t.selectables
    ensures FilterAsWritten(t, b) == Err(NameError)
  {
  }

  /** `filterSelectables` as intended: keep exactly the members whose
      trial select succeeds. */
  function Filter<S(==)>(t: Task<S>, b: Selectables<S>): (r: Task<S>)
    ensures r.selectables <= t.selectables
    ensures forall x | x in t.selectables :: x in r.selectables <==> Verifies(b, x)
    ensures r.(selectables := t.selectables) == t
  {
    t.(selectables := set x | x in t.selectables && Verifies(b, x))
  }

  /** Filtering twice is filtering once, and filtering never adds. */
  lemma FilterIdempotent<S>(t: Task<S>, b: Selectables<S>)
    ensures Filter(Filter(t, b), b) == Filter(t, b)
    ensures Filter(t, b).selectables <= t.selectables
  {
    var once := Filter(t, b);
    var twice := Filter(once, b);
    assert twice.selectables == once.selectables;
  }

  /** The members `_iterReadables` / `_iterWriteables` yield. */
  function Readers<S(==)>(t: Task<S>, b: Selectables<S>): (rs: set<S>)
    ensures rs <= t.selectables
    ensures forall x | x in t.selectables :: x in rs <==> b.needsRead(x)
  {
    set x | x in t.selectables && b.needsRead(x)
  }

  function Writers<S(==)>(t: Task<S>, b: Selectables<S>): (ws: set<S>)
    ensures ws <= t.selectables
    ensures forall x | x in t.selectables :: x in ws <==> b.needsWrite(x)
  {
    set x | x in t.selectables && b.needsWrite(x)
  }

  // ----------------------------------------------------------------- a turn

  /** The arguments of the `select(readers, writers, [], timeout)` call. */
  datatype SelectCall<S> = SelectCall(readers: set<S>, writers: set<S>, timeout: real)

  /** What `select` does: return the ready readers and writers, or raise.
      When it raises, `readers` and `writers` are what is left of the two
      generators it was given, which the source goes on to dispatch over
      after a retryable socket error. */
  datatype SelectReply<S> =
    | Selected(readers: seq<S>, writers: seq<S>)
    | Raised(err: PyError, leftReaders: seq<S>, leftWriters: seq<S>)

  /** The effects of one turn: the new state, the `sleep` it asked for, the
      `select` call it made and the exception that escaped it, if any.  An
      exception escapes after the updates made before it, so the state is
      kept alongside it. */
  datatype Turn<S(==)> = Turn(task: Task<S>, delay: Option<real>, call: Option<SelectCall<S>>,
                              raised: Option<PyError>)

  /** The sum of the byte counts `f` reports over `xs`, in order, as a
      dispatch loop adds them up; the first call that raises ends the loop
      with its exception. */
  function Total<S>(xs: seq<S>, f: S -> Result<int>): (r: Result<int>)
    ensures r.Ok? <==> forall i | 0 <= i < |xs| :: f(xs[i]).Ok?
    ensures r.Err? ==> exists i | 0 <= i < |xs| :: f(xs[i]) == Err(r.error) && forall j | 0 <= j < i :: f(xs[j]).Ok?
    decreases |xs|
  {
    if |xs| == 0 then Ok(0)
    else
      assert forall i | 1 <= i < |xs| :: xs[i] == xs[1..][i - 1];
      match f(xs[0])
      case Err(e) => Err(e)
      case Ok(n) =>
        match Total(xs[1..], f)
        case Err(e) =>
          assert exists i | 1 <= i < |xs| :: f(xs[i]) == Err(e) && forall j | 0 <= j < i :: f(xs[j]).Ok?;
          Err(e)
        case Ok(m) => Ok(n + m)
  }

  /** `proccessSelected`: every returned reader reads, then every returned
      writer writes, and each counter grows by its loop's total once that
      loop is over.  An exception escapes from the loop it is raised in: a
      failing read leaves both counters as they were, a failing write
      leaves the read total added and the sent counter as it was. */
  function Dispatch<S(==)>(t: Task<S>, readers: seq<S>, writers: seq<S>, b: Selectables<S>)
    : (r: (Task<S>, Option<PyError>))
    ensures r.0.selectables == t.selectables && r.0.timer == t.timer
    ensures Total(readers, b.performRead).Err? ==> r == (t, Some(Total(readers, b.performRead).error))
    ensures Total(readers, b.performRead).Ok? ==>
      && r.0.recvBytes == t.recvBytes + Total(readers, b.performRead).value
      && (r.1.None? <==> Total(writers, b.performWrite).Ok?)
    ensures Total(readers, b.performRead).Ok? && Total(writers, b.performWrite).Err? ==>
      r.0.sentBytes == t.sentBytes && r.1 == Some(Total(writers, b.performWrite).error)
    ensures Total(readers, b.performRead).Ok? && Total(writers, b.performWrite).Ok? ==>
      r.0.sentBytes == t.sentBytes + Total(writers, b.performWrite).value
  {
    match Total(readers, b.performRead)
    case Err(e) => (t, Some(e))
    case Ok(received) =>
      var afterReads := t.(recvBytes := t.recvBytes + received);
      match Total(writers, b.performWrite)
      case Err(e) => (afterReads, Some(e))
      case Ok(sent) => (afterReads.(sentBytes := t.sentBytes + sent), None)
  }

  /** `touchTimer` at `now`. */
  function TouchTimer<S(==)>(t: Task<S>, now: real): (r: Task<S>)
    ensures r.timer == Touch(t.timer, now)
    ensures r.(timer := t.timer) == t
  {
    t.(timer := Touch(t.timer, now))
  }

  /** Touch the timer, then dispatch: the tail of a turn that gets past the
      `select` call. */
  function Proceed<S(==)>(t: Task<S>, now: real, rs: seq<S>, ws: seq<S>, b: Selectables<S>, call: SelectCall<S>)
    : (r: Turn<S>)
    ensures (r.task, r.raised) == Dispatch(TouchTimer(t, now), rs, ws, b)
    ensures r.delay.None? && r.call == Some(call)
  {
    var (task, raised) := Dispatch(TouchTimer(t, now), rs, ws, b);
    Turn(task, None, Some(call), raised)
  }

  /** The `select` call a turn makes over a non-empty set. */
  function CallOf<S(==)>(t: Task<S>, timeout: real, b: Selectables<S>): SelectCall<S> {
    SelectCall(Readers(t, b), Writers(t, b), timeout)
  }

  /** `process(timeout)` (and `runTask`, which is `process(0)`) as written,
      with the clock reading `now` and `select` the outcome of the system
      call.

      With no selectables it never selects and sleeps for `timeout` when
      that is non-zero.  Otherwise it selects over the readers and writers.
      A `ValueError`, `TypeError` or `EBADF` evicts the members that fail
      their trial select; another socket error is re-raised when the error
      table says so, and otherwise falls through, like a successful select,
      to touching the timer and dispatching over the readers and writers it
      has.  Every other exception, `select.error` included, escapes with
      the task unchanged. */
  function ProcessAsWritten<S(==)>(t: Task<S>, timeout: real, now: real, b: Selectables<S>,
                                   select: SelectCall<S> -> SelectReply<S>, codes: ErrnoCodes)
    : (r: Turn<S>)
    ensures t.selectables == {} ==>
      r == Turn(t, if timeout != 0.0 then Some(timeout) else None, None, None)
    ensures t.selectables != {} ==> r.delay.None? && r.call == Some(CallOf(t, timeout, b))
    ensures t.selectables != {} && select(CallOf(t, timeout, b)).Selected? ==>
      var reply := select(CallOf(t, timeout, b));
      && r.task.selectables == t.selectables && r.task.timer == Touch(t.timer, now)
      && (r.task, r.raised) == Dispatch(TouchTimer(t, now), reply.readers, reply.writers, b)
    ensures t.selectables != {} && select(CallOf(t, timeout, b)).Raised? &&
            select(CallOf(t, timeout, b)).err in {ValueError, TypeError} ==>
      r.task == Filter(t, b) && r.raised.None?
    ensures t.selectables != {} && select(CallOf(t, timeout, b)).Raised? &&
            select(CallOf(t, timeout, b)).err !in {ValueError, TypeError} &&
            !select(CallOf(t, timeout, b)).err.SocketError? ==>
      r.task == t && r.raised == Some(select(CallOf(t, timeout, b)).err)
  {
    if t.selectables == {} then
      Turn(t, if timeout != 0.0 then Some(timeout) else None, None, None)
    else
      var call := CallOf(t, timeout, b);
      match select(call)
      case Selected(rs, ws) => Proceed(t, now, rs, ws, b, call)
      case Raised(err, rs, ws) =>
        if err == ValueError || err == TypeError then
          Turn(Filter(t, b), None, Some(call), None)
        else if err.SocketError? then
          if err.errno == codes.ebadf then
            Turn(Filter(t, b), None, Some(call), None)
          else if ReraiseSocketError(codes, err, err.errno).Some? then
            Turn(t, None, Some(call), Some(err))
          else
            Proceed(t, now, rs, ws, b, call)
        else
          Turn(t, None, Some(call), Some(err))
  }

  /** A socket error is re-raised by a turn, with the task unchanged,
      exactly when it is not EBADF and the error table calls it fatal;
      EBADF evicts, and a retryable one still touches the timer and
      dispatches over the leftover readers and writers. */
  lemma ProcessSocketError<S>(t: Task<S>, timeout: real, now: real, b: Selectables<S>,
                              select: SelectCall<S> -> SelectReply<S>, codes: ErrnoCodes,
                              code: int, rs: seq<S>, ws: seq<S>)
    requires t.selectables != {}
    requires select(CallOf(t, timeout, b)) == Raised(SocketError(code), rs, ws)
    ensures code != codes.ebadf && IsFatal(codes, code) ==>
      ProcessAsWritten(t, timeout, now, b, select, codes)
        == Turn(t, None, Some(CallOf(t, timeout, b)), Some(SocketError(code)))
    ensures code == codes.ebadf ==>
      ProcessAsWritten(t, timeout, now, b, select, codes)
        == Turn(Filter(t, b), None, Some(CallOf(t, timeout, b)), None)
    ensures code != codes.ebadf && !IsFatal(codes, code) ==>
      var r := ProcessAsWritten(t, timeout, now, b, select, codes);
      (r.task, r.raised) == Dispatch(TouchTimer(t, now), rs, ws, b)
  {
  }

  /** A `select` reply with `select.error` read as `socket.error`. */
  function AsSocketError<S>(reply: SelectReply<S>): SelectReply<S> {
    match reply
    case Raised(SelectError(code), rs, ws) => Raised(SocketError(code), rs, ws)
    case _ => reply
  }

  /** `process` as evidently intended: the `socket.error` handler also
      catches `select.error`, which carries the same errno. */
  function Process<S(==)>(t: Task<S>, timeout: real, now: real, b: Selectables<S>,
                          select: SelectCall<S> -> SelectReply<S>, codes: ErrnoCodes)
    : (r: Turn<S>)
    ensures !(select(CallOf(t, timeout, b)).Raised? && select(CallOf(t, timeout, b)).err.SelectError?) ==>
      r == ProcessAsWritten(t, timeout, now, b, select, codes)
    ensures t.selectables != {} && select(CallOf(t, timeout, b)).Raised? &&
            select(CallOf(t, timeout, b)).err.SelectError? ==>
      var reply := select(CallOf(t, timeout, b));
      r == ProcessAsWritten(t, timeout, now, b,
                            _ => Raised(SocketError(reply.err.errno), reply.leftReaders, reply.leftWriters), codes)
  {
    ProcessAsWritten(t, timeout, now, b, c => AsSocketError(select(c)), codes)
  }

  /** `select`'s own EINTR, or any other retryable or EBADF `select.error`,
      escapes from the turn as written; the intended turn evicts on EBADF
      and carries on past a retryable code. */
  lemma SelectErrorEscapes<S>(t: Task<S>, timeout: real, now: real, b: Selectables<S>,
                              select: SelectCall<S> -> SelectReply<S>, codes: ErrnoCodes,
                              code: int, rs: seq<S>, ws: seq<S>)
    requires t.selectables != {}
    requires select(CallOf(t, timeout, b)) == Raised(SelectError(code), rs, ws)
    ensures ProcessAsWritten(t, timeout, now, b, select, codes)
              == Turn(t, None, Some(CallOf(t, timeout, b)), Some(SelectError(code)))
    ensures code == codes.ebadf ==>
      Process(t, timeout, now, b, select, codes) == Turn(Filter(t, b), None, Some(CallOf(t, timeout, b)), None)
    ensures code != codes.ebadf && !IsFatal(codes, code) ==>
      var r := Process(t, timeout, now, b, select, codes);
      (r.task, r.raised) == Dispatch(TouchTimer(t, now), rs, ws, b)
    ensures code != codes.ebadf && IsFatal(codes, code) ==>
      Process(t, timeout, now, b, select, codes).raised == Some(SocketError(code))
  {
    var select' := (_: SelectCall<S>) => Raised(SocketError(code), rs, ws);
    ProcessSocketError(t, timeout, now, b, select', codes, code, rs, ws);
  }

  // ------------------------------------------------------------- readiness

  /** `isTaskReady(incIdle)` at clock reading `now`. */
  predicate IsTaskReady<S(==)>(t: Task<S>, incIdle: bool, now: real, b: Selectables<S>) {
    if incIdle then true
    else if t.selectables == {} then false
    else if IsReady(t.timer, now) then true
    else Writers(t, b) != {}
  }

  /** Readiness without idling: there are selectables, and either the
      timer has run out or one of them wants to write. */
  lemma IsTaskReadyMeaning<S>(t: Task<S>, now: real, b: Selectables<S>)
    ensures IsTaskReady(t, true, now, b)
    ensures IsTaskReady(t, false, now, b) <==>
      t.selectables != {} &&
      (IsReady(t.timer, now) || exists x :: x in t.selectables && b.needsWrite(x))
  {
    if !IsReady(t.timer, now) && t.selectables != {} && (exists x :: x in t.selectables && b.needsWrite(x)) {
      var x :| x in t.selectables && b.needsWrite(x);
      assert x in Writers(t, b);
    }
  }

  /** Right after a turn that selected, at the same clock reading, the
      task is ready without idling only if some member wants to write,
      whether or not the dispatch raised. */
  lemma ReadyAfterTurn<S>(t: Task<S>, timeout: real, now: real, b: Selectables<S>,
                          select: SelectCall<S> -> SelectReply<S>, codes: ErrnoCodes)
    requires t.selectables != {} && t.timer.duration >= 0.0
    requires select(CallOf(t, timeout, b)).Selected?
    ensures var t' := Process(t, timeout, now, b, select, codes).task;
      IsTaskReady(t', false, now, b) <==> Writers(t, b) != {}
  {
    var t' := Process(t, timeout, now, b, select, codes).task;
    assert !IsReady(t'.timer, now);
    assert Writers(t', b) == Writers(t, b);
  }

  // ------------------------------------------------------------------ stats

  /** `stats()`. */
  function Stats<S(==)>(t: Task<S>): (r: (int, int))
    ensures r.0 == t.recvBytes && r.1 == t.sentBytes
  {
    (t.recvBytes, t.sentBytes)
  }

  /** `statsReset()`: both counters to zero, nothing else changes. */
  function StatsReset<S(==)>(t: Task<S>): (r: Task<S>)
    ensures Stats(r) == (0, 0)
    ensures r.selectables == t.selectables && r.timer == t.timer
  {
    t.(recvBytes := 0, sentBytes := 0)
  }

  /** When every call succeeds, the total is the share of the element at
      `i` plus the total over the rest, wherever that element sits. */
  lemma {:induction false} TotalRemove<S>(xs: seq<S>, i: nat, f: S -> Result<int>)
    requires i < |xs| && Total(xs, f).Ok?
    ensures Total(xs[..i] + xs[i + 1..], f).Ok?
    ensures Total(xs, f).value == f(xs[i]).value + Total(xs[..i] + xs[i + 1..], f).value
    decreases |xs|
  {
    if i > 0 {
      TotalRemove(xs[1..], i - 1, f);
      assert xs[1..][..i - 1] + xs[1..][i..] == (xs[..i] + xs[i + 1..])[1..];
      assert (xs[..i] + xs[i + 1..])[0] == xs[0];
    } else {
      assert xs[..i] + xs[i + 1..] == xs[1..];
    }
  }

  /** Dropping the element at `i` removes one copy of it. */
  lemma MultisetRemove<S>(ys: seq<S>, i: nat)
    requires i < |ys|
    ensures multiset(ys[..i] + ys[i + 1..]) == multiset(ys) - multiset{ys[i]}
  {
    assert ys == ys[..i] + [ys[i]] + ys[i + 1..];
  }

  /** A permutation of a non-empty sequence holds its first element at
      some index `i`, and the rest of it is a permutation of the other
      sequence without that index. */
  lemma PermutationTail<S>(xs: seq<S>, ys: seq<S>) returns (i: nat)
    requires multiset(xs) == multiset(ys) && |xs| > 0
    ensures i < |ys| && ys[i] == xs[0]
    ensures multiset(xs[1..]) == multiset(ys[..i] + ys[i + 1..])
  {
    assert xs[0] in multiset(ys);
    assert xs[0] in ys;
    i :| 0 <= i < |ys| && ys[i] == xs[0];
    MultisetRemove(xs, 0);
    assert xs[..0] + xs[1..] == xs[1..];
    assert multiset(xs[1..]) == multiset(ys) - multiset{ys[i]};
    MultisetRemove(ys, i);
  }

  /** A loop's total succeeds exactly when every member's call does. */
  lemma TotalOkMembers<S>(xs: seq<S>, f: S -> Result<int>)
    ensures Total(xs, f).Ok? <==> forall x | x in xs :: f(x).Ok?
  {
    if Total(xs, f).Ok? {
      forall x | x in xs ensures f(x).Ok? {
        var i :| 0 <= i < |xs| && xs[i] == x;
      }
    }
  }

  /** Whether a loop gets through, and the total it adds up, do not depend
      on the order `select` lists the ready selectables in. */
  lemma {:induction false} TotalPermutation<S>(xs: seq<S>, ys: seq<S>, f: S -> Result<int>)
    requires multiset(xs) == multiset(ys)
    ensures Total(xs, f).Ok? <==> Total(ys, f).Ok?
    ensures Total(xs, f).Ok? ==> Total(xs, f).value == Total(ys, f).value
    decreases |xs|
  {
    TotalOkMembers(xs, f);
    TotalOkMembers(ys, f);
    forall x ensures x in xs <==> x in ys {
      assert x in xs <==> x in multiset(xs);
      assert x in ys <==> x in multiset(ys);
    }
    if |xs| > 0 && Total(xs, f).Ok? {
      var i := PermutationTail(xs, ys);
      TotalPermutation(xs[1..], ys[..i] + ys[i + 1..], f);
      TotalRemove(ys, i, f);
    } else if |xs| == 0 {
      assert |ys| == |multiset(ys)|;
    }
  }

  /** A dispatch gets through for one ordering of the ready readers and
      writers exactly when it does for any other, and then leaves the same
      counters. */
  lemma DispatchPermutation<S>(t: Task<S>, rs: seq<S>, ws: seq<S>, rs': seq<S>, ws': seq<S>, b: Selectables<S>)
    requires multiset(rs) == multiset(rs') && multiset(ws) == multiset(ws')
    ensures Dispatch(t, rs, ws, b).1.None? <==> Dispatch(t, rs', ws', b).1.None?
    ensures Dispatch(t, rs, ws, b).1.None? ==> Dispatch(t, rs, ws, b).0 == Dispatch(t, rs', ws', b).0
  {
    TotalPermutation(rs, rs', b.performRead);
    TotalPermutation(ws, ws', b.performWrite);
  }
}
