/** The static classification of socket error numbers that decides whether
    a `socket.error` escapes from a reactor turn (`socketErrorMap` and
    `NetworkCommon.reraiseSocketError` in selectTask.py).

    The numeric values of the errno names are platform constants, so the
    table is built from an `ErrnoCodes` record; `Linux` gives the values of
    Linux's errno.h.  The map is filled by assignments in source order, so
    when two names share a number (EAGAIN and EWOULDBLOCK on Linux) the
    later assignment is the one that counts. */
module SocketErrors {
  import opened Base

  /** The Winsock aliases, present only where `errno.WSAEINTR` exists. */
  datatype WsaCodes = WsaCodes(
    eintr: int, ewouldblock: int,
    econnaborted: int, econnrefused: int, econnreset: int)

  datatype ErrnoCodes = ErrnoCodes(
    eagain: int, eintr: int, ewouldblock: int,
    emsgsize: int,
    econnaborted: int, econnrefused: int, econnreset: int,
    eaddrnotavail: int, enetunreach: int,
    ebadf: int,
    wsa: Option<WsaCodes>)

  /** errno values on Linux, which has no Winsock aliases. */
  const Linux := ErrnoCodes(11, 4, 11, 90, 103, 111, 104, 99, 101, 9, None)

  /** The assignments to `socketErrorMap`, in the order the module makes
      them: `true` means the error is re-raised. */
  function Assignments(c: ErrnoCodes): seq<(int, bool)> {
    [(c.eagain, false), (c.eintr, false), (c.ewouldblock, false),
     (c.emsgsize, true),
     (c.econnaborted, true), (c.econnrefused, true), (c.econnreset, true),
     (c.eaddrnotavail, true), (c.enetunreach, true)]
    + match c.wsa
      case None => []
      case Some(w) =>
        [(w.eintr, false), (w.ewouldblock, false),
         (w.econnaborted, true), (w.econnrefused, true), (w.econnreset, true)]
  }

  /** A dictionary filled by the assignments in order. */
  function Build(asg: seq<(int, bool)>): (m: map<int, bool>)
    ensures m.Keys == set i | 0 <= i < |asg| :: asg[i].0
    decreases |asg|
  {
    if |asg| == 0 then map[]
    else
      var m := Build(asg[..|asg| - 1]);
      assert forall i | 0 <= i < |asg| - 1 :: asg[..|asg| - 1][i] == asg[i];
      m[asg[|asg| - 1].0 := asg[|asg| - 1].1]
  }

  /** Each key holds the value of the last assignment made to it. */
  lemma {:induction false} BuildLastWins(asg: seq<(int, bool)>, i: nat)
    requires i < |asg|
    requires forall j | i < j < |asg| :: asg[j].0 != asg[i].0
    ensures asg[i].0 in Build(asg) && Build(asg)[asg[i].0] == asg[i].1
    decreases |asg|
  {
    if i < |asg| - 1 {
      var init := asg[..|asg| - 1];
      assert forall j | i < j < |init| :: init[j] == asg[j];
      BuildLastWins(init, i);
    }
  }

  /** The position of the last assignment to `code`. */
  lemma {:induction false} LastOccurrence(asg: seq<(int, bool)>, code: int) returns (i: nat)
    requires exists j | 0 <= j < |asg| :: asg[j].0 == code
    ensures i < |asg| && asg[i].0 == code
    ensures forall j | i < j < |asg| :: asg[j].0 != code
    decreases |asg|
  {
    if asg[|asg| - 1].0 == code {
      i := |asg| - 1;
    } else {
      var init := asg[..|asg| - 1];
      assert exists j | 0 <= j < |init| :: init[j].0 == code by {
        var j :| 0 <= j < |asg| && asg[j].0 == code;
        assert init[j] == asg[j];
      }
      i := LastOccurrence(init, code);
      assert init[i] == asg[i];
    }
  }

  function ErrorMap(c: ErrnoCodes): map<int, bool> {
    Build(Assignments(c))
  }

  /** `socketErrorMap.get(code, True)`: an unknown code counts as fatal. */
  predicate IsFatal(c: ErrnoCodes, code: int) {
    var m := ErrorMap(c);
    if code in m then m[code] else true
  }

  /** `reraiseSocketError`: the error itself when it is to be re-raised,
      otherwise `None`. */
  function ReraiseSocketError<E>(c: ErrnoCodes, err: E, code: int): (r: Option<E>)
    ensures r.Some? ==> r.value == err
    ensures r.None? <==> code in ErrorMap(c) && !ErrorMap(c)[code]
  {
    if IsFatal(c, code) then Some(err) else None
  }

  function NonFatalCodes(c: ErrnoCodes): set<int> {
    {c.eagain, c.eintr, c.ewouldblock}
    + match c.wsa
      case None => {}
      case Some(w) => {w.eintr, w.ewouldblock}
  }

  function FatalCodes(c: ErrnoCodes): set<int> {
    {c.emsgsize, c.econnaborted, c.econnrefused, c.econnreset, c.eaddrnotavail, c.enetunreach}
    + match c.wsa
      case None => {}
      case Some(w) => {w.econnaborted, w.econnrefused, w.econnreset}
  }

  /** No number is named both by a retryable and by a fatal errno name. */
  predicate Disjoint(c: ErrnoCodes) {
    NonFatalCodes(c) !! FatalCodes(c)
  }

  /** Every retryable code is mentioned by the table. */
  lemma NonFatalMentioned(c: ErrnoCodes)
    ensures NonFatalCodes(c) <= ErrorMap(c).Keys
  {
    var asg := Assignments(c);
    assert asg[0].0 == c.eagain && asg[1].0 == c.eintr && asg[2].0 == c.ewouldblock;
    if c.wsa.Some? {
      assert asg[9].0 == c.wsa.value.eintr && asg[10].0 == c.wsa.value.ewouldblock;
    }
  }

  /** With the two groups of names disjoint, a code is re-raised exactly
      when it is not one of the retryable codes: the fatal codes and every
      code the table does not mention. */
  lemma Classification(c: ErrnoCodes, code: int)
    requires Disjoint(c)
    ensures IsFatal(c, code) <==> code !in NonFatalCodes(c)
    ensures code in FatalCodes(c) ==> IsFatal(c, code)
  {
    var asg := Assignments(c);
    var m := ErrorMap(c);
    if code in m {
      var i := LastOccurrence(asg, code);
      BuildLastWins(asg, i);
      assert m[code] == asg[i].1;
      assert code in NonFatalCodes(c) || code in FatalCodes(c);
    } else {
      NonFatalMentioned(c);
    }
  }

  /** The Linux table: EAGAIN (= EWOULDBLOCK) and EINTR are retried, the
      six connection and routing errors are re-raised, and so is anything
      unknown, EBADF included. */
  lemma LinuxTable()
    ensures Disjoint(Linux)
    ensures NonFatalCodes(Linux) == {4, 11}
    ensures forall code :: IsFatal(Linux, code) <==> code != 4 && code != 11
  {
    forall code
      ensures IsFatal(Linux, code) <==> code != 4 && code != 11
    {
      Classification(Linux, code);
    }
  }
}
