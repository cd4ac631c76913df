/**
 * The abstract meaning of both buffers: a FIFO sequence whose length is capped at `maxlen`.
 * This is the behaviour `CircularBufferDeque` gets from `deque(maxlen=size)`: appending to a
 * deque that already holds `maxlen` elements discards one element from the front, and
 * `popleft` removes the front.
 */
module BoundedQueue {
  import opened Outcomes

  function Min(a: nat, b: nat): nat
  {
    if a <= b then a else b
  }

  /** The last `k` elements of `s`, in order. */
  function Newest<T>(s: seq<T>, k: nat): seq<T>
    requires k <= |s|
  {
    s[|s| - k..]
  }

  /** `append(x)` on a deque holding `s` with capacity `maxlen`. */
  function Push<T>(s: seq<T>, maxlen: nat, x: T): (r: seq<T>)
    requires |s| <= maxlen
    ensures r == Newest(s + [x], Min(|s| + 1, maxlen))
    ensures |r| <= maxlen
    ensures maxlen > 0 ==> r[|r| - 1] == x
  {
    if |s| < maxlen then s + [x]
    else if maxlen == 0 then []
    else s[1..] + [x]
  }

  /** `pop()`: `IndexError` on an empty deque, otherwise the front element and the rest. */
  function PopLeft<T>(s: seq<T>): (r: (Result<T>, seq<T>))
    ensures r.0.IndexError? <==> s == []
    ensures r.0.IndexError? ==> r.1 == s
    ensures r.0.Ok? ==> [r.0.value] + r.1 == s
  {
    if s == [] then (IndexError, s) else (Ok(s[0]), s[1..])
  }

  /** Runs `ops` from contents `s`; yields the final contents and the outcome of every `pop`, in order. */
  function Run<T>(s: seq<T>, maxlen: nat, ops: seq<Op<T>>): (r: (seq<T>, seq<Result<T>>))
    requires |s| <= maxlen
    ensures |r.0| <= maxlen
    ensures |r.1| <= |ops|
    decreases |ops|
  {
    if ops == [] then (s, [])
    else match ops[0]
      case Append(x) => Run(Push(s, maxlen, x), maxlen, ops[1..])
      case Pop =>
        var (out, rest) := PopLeft(s);
        var (final, outs) := Run(rest, maxlen, ops[1..]);
        (final, [out] + outs)
  }

  /** Taking the newest `k` of `u` and then appending `v` loses nothing the newest `l` of `u + v` need. */
  lemma NewestOfNewest<T>(u: seq<T>, k: nat, v: seq<T>, l: nat)
    requires k <= |u| && l <= k + |v|
    ensures Newest(Newest(u, k) + v, l) == Newest(u + v, l)
  {
    var a, b := Newest(Newest(u, k) + v, l), Newest(u + v, l);
    forall i | 0 <= i < l ensures a[i] == b[i] {
      if i < l - |v| {
        assert a[i] == u[|u| - k + (k + |v| - l) + i];
      }
    }
  }

  /** Running a list of appends performs the first one, then the others. */
  lemma RunAppendsStep<T>(s: seq<T>, maxlen: nat, xs: seq<T>)
    requires |s| <= maxlen && xs != []
    ensures Run(s, maxlen, Appends(xs)) == Run(Push(s, maxlen, xs[0]), maxlen, Appends(xs[1..]))
  {
    var ops := Appends(xs);
    assert ops[0] == Append(xs[0]);
    assert ops[1..] == Appends(xs[1..]);
  }

  /** Appending `xs[0]` and then keeping the newest of the rest keeps what keeping the newest of `s + xs` keeps. */
  lemma PushThenNewest<T>(s: seq<T>, maxlen: nat, xs: seq<T>)
    requires |s| <= maxlen && xs != []
    ensures var p := Push(s, maxlen, xs[0]);
      Newest(p + xs[1..], Min(|p| + |xs[1..]|, maxlen)) == Newest(s + xs, Min(|s| + |xs|, maxlen))
  {
    var x, rest := xs[0], xs[1..];
    var l := Min(|s| + |xs|, maxlen);
    NewestOfNewest(s + [x], Min(|s| + 1, maxlen), rest, l);
    assert s + [x] + rest == s + xs;
  }

  /** Appending `xs` one by one keeps exactly the newest `maxlen` elements of `s + xs`. */
  lemma {:induction false} KeepsNewest<T>(s: seq<T>, maxlen: nat, xs: seq<T>)
    requires |s| <= maxlen
    ensures Run(s, maxlen, Appends(xs)).0 == Newest(s + xs, Min(|s| + |xs|, maxlen))
    ensures Run(s, maxlen, Appends(xs)).1 == []
    decreases |xs|
  {
    if xs == [] {
      assert Appends(xs) == [];
      assert s + xs == s;
    } else {
      RunAppendsStep(s, maxlen, xs);
      KeepsNewest(Push(s, maxlen, xs[0]), maxlen, xs[1..]);
      PushThenNewest(s, maxlen, xs);
    }
  }

  /** Appending at most `maxlen - |s|` elements loses nothing. */
  lemma AppendsWithinCapacity<T>(s: seq<T>, maxlen: nat, xs: seq<T>)
    requires |s| + |xs| <= maxlen
    ensures Run(s, maxlen, Appends(xs)).0 == s + xs
  {
    KeepsNewest(s, maxlen, xs);
  }
}
