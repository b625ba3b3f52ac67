/** Shared failure-compatible wrappers and the Python exception classes the
    modelled code can raise. */
module Base {

  datatype Option<+T> = None | Some(value: T)

  /** The exception classes that escape from the modelled operations. */
  datatype PyError =
    | ValueError
    | TypeError
    | NameError
    | AttributeError
    | IndexError
    | StructError
    | NotImplementedError
    | LookupError
    | IllegalAddress          // inet_pton or inet_aton rejected its text
    | SocketError(errno: int) // socket.error carrying an errno
    | SelectError(errno: int) // select.error, a class of its own in Python 2

  datatype Result<+T> = Ok(value: T) | Err(error: PyError) {
    predicate IsFailure() { Err? }
    function PropagateFailure<U>(): Result<U>
      requires Err?
    {
      Err(error)
    }
    function Extract(): T
      requires Ok?
    {
      value
    }
  }

  /** The values of several computations, in order; the first failure
      stops the walk, as an exception escaping a loop does. */
  function AllOk<T>(rs: seq<Result<T>>): (r: Result<seq<T>>)
    ensures r.Ok? <==> forall i | 0 <= i < |rs| :: rs[i].Ok?
    ensures r.Ok? ==> |r.value| == |rs| && forall i | 0 <= i < |rs| :: r.value[i] == rs[i].value
    ensures r.Err? ==> exists i | 0 <= i < |rs| :: rs[i] == Err(r.error) && forall j | 0 <= j < i :: rs[j].Ok?
    decreases |rs|
  {
    if |rs| == 0 then Ok([])
    else
      assert forall i | 1 <= i < |rs| :: rs[i] == rs[1..][i - 1];
      match rs[0]
      case Err(x) => Err(x)
      case Ok(v) =>
        match AllOk(rs[1..])
        case Err(x) =>
          assert exists i | 1 <= i < |rs| :: rs[i] == Err(x) && forall j | 0 <= j < i :: rs[j].Ok?;
          Err(x)
        case Ok(rest) => Ok([v] + rest)
  }

  /** Python truthiness of an optional text value: None and '' are false. */
  predicate Truthy(s: Option<string>) {
    s.Some? && s.value != ""
  }

  /** Python's `s[a:b]` for non-negative bounds: both ends are clamped to
      the length, and a start past the end gives the empty slice. */
  function Slice<T>(s: seq<T>, a: nat, b: nat): (r: seq<T>)
    ensures a <= |s| && a <= b <= |s| ==> r == s[a..b]
    ensures |r| == (if a < b && a < |s| then (if b < |s| then b else |s|) - a else 0)
    ensures forall i | 0 <= i < |r| :: a + i < |s| && r[i] == s[a + i]
  {
    if a < b && a < |s| then s[a..if b < |s| then b else |s|] else []
  }
}
