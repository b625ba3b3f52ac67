/** The search for the largest socket buffer size the OS accepts
    (`SocketSelectable._socketFindMaxBufferSize` in selectTask.py).

    Each probe sets both `SO_RCVBUF` and `SO_SNDBUF` to the candidate size;
    `accepts(size)` says whether both calls succeed.  The search is a
    bisection between a known-good lower bound and a known-bad upper bound,
    and its answer is memoised class-wide: a truthy cache short-circuits the
    whole search. */
module BufferSize {
  import opened Base

  const FirstProbe: int := 0x40000
  const LowerBound: int := 0x2000
  const UpperBound: int := 0x80000

  /** The last probe that `accepts` took, or `default` if none was. */
  function LastAccepted(probes: seq<int>, accepts: int -> bool, default: int): (r: int)
    ensures r == default || (r in probes && accepts(r))
    decreases |probes|
  {
    if |probes| == 0 then default
    else if accepts(probes[|probes| - 1]) then probes[|probes| - 1]
    else LastAccepted(probes[..|probes| - 1], accepts, default)
  }

  /** The last probe that `accepts` refused, or `default` if none was. */
  function LastRefused(probes: seq<int>, accepts: int -> bool, default: int): (r: int)
    ensures r == default || (r in probes && !accepts(r))
    decreases |probes|
  {
    if |probes| == 0 then default
    else if !accepts(probes[|probes| - 1]) then probes[|probes| - 1]
    else LastRefused(probes[..|probes| - 1], accepts, default)
  }

  /** Python truthiness of the class attribute `_socketMaxBufferSize`:
      `None` and `0` both trigger a search. */
  predicate Cached(cache: Option<int>) {
    cache.Some? && cache.value != 0
  }

  /** `accepts` succeeds for every size up to some limit and fails above
      it, as a kernel buffer cap does. */
  ghost predicate DownwardClosed(accepts: int -> bool) {
    forall a, b :: a <= b && accepts(b) ==> accepts(a)
  }

  /** One call of `_socketFindMaxBufferSize`.  Returns the size, the probes
      tried in order, and the new value of the class-wide cache.

      The answer is always the last accepted probe, or 0x2000 if none was
      accepted; one above it is the last refused probe, or 0x80000.  So the
      answer lies in [0x2000, 0x7ffff], and for a downward-closed `accepts`
      it is the largest accepted size in that range. */
  method FindMaxBufferSize(cache: Option<int>, accepts: int -> bool)
    returns (size: int, probes: seq<int>, newCache: Option<int>)
    ensures Cached(cache) ==> size == cache.value && probes == [] && newCache == cache
    ensures !Cached(cache) ==> newCache == Some(size)
    ensures !Cached(cache) ==> LowerBound <= size < UpperBound
    ensures !Cached(cache) ==> size == LastAccepted(probes, accepts, LowerBound)
    ensures !Cached(cache) ==> size + 1 == LastRefused(probes, accepts, UpperBound)
    ensures !Cached(cache) ==> forall p | p in probes :: LowerBound < p < UpperBound
    ensures !Cached(cache) && DownwardClosed(accepts) ==>
      (forall s | LowerBound < s <= size :: accepts(s)) &&
      (size + 1 < UpperBound ==> !accepts(size + 1))
  {
    if Cached(cache) {
      return cache.value, [], cache;
    }
    var size0, size1 := LowerBound, UpperBound;
    size := FirstProbe;
    probes := [];
    while size1 > size0 + 1
      invariant size0 < size1
      invariant size1 > size0 + 1 ==> size0 < size < size1
      invariant size1 == size0 + 1 ==> size == size0
      invariant LowerBound <= size0 && size1 <= UpperBound
      invariant size0 == LastAccepted(probes, accepts, LowerBound)
      invariant size1 == LastRefused(probes, accepts, UpperBound)
      invariant forall p | p in probes :: LowerBound < p < UpperBound
      decreases size1 - size0
    {
      if accepts(size) {
        size0 := size;
      } else {
        size1 := size;
      }
      assert (probes + [size])[..|probes|] == probes;
      probes := probes + [size];
      size := (size1 + size0) / 2;
    }
    newCache := Some(size);
  }
}
