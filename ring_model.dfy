/**
 * Value-level model of the fields of `CircularBufferList` (question_2.py): the storage
 * `buffer` of length `size`, the index `start` of the oldest element, the index `end` of the
 * next write, and the flag `isFull` that tells a full buffer from an empty one when
 * `start == end`. The class in module CircularBuffer is specified by these functions; the
 * lemmas here show that its live contents refine the bounded queue of module BoundedQueue.
 */
module RingModel {
  import opened Outcomes
  import BoundedQueue

  lemma ModBelow(k: int, n: int)
    requires 0 <= k < n
    ensures k % n == k
  {
  }

  lemma ModAbove(k: int, n: int)
    requires 0 < n <= k < 2 * n
    ensures k % n == k - n
  {
    assert k == n * 1 + (k - n);
  }

  lemma ModBelowZero(k: int, n: int)
    requires 0 < n && -n <= k < 0
    ensures k % n == k + n
  {
    assert k == n * (-1) + (k + n);
  }

  /** `k % n` for `-n <= k < 2 * n`, where one correction step suffices. */
  lemma ModStep(k: int, n: int)
    requires 0 < n && -n <= k < 2 * n
    ensures k % n == if k < 0 then k + n else if k < n then k else k - n
  {
    if k < 0 {
      ModBelowZero(k, n);
    } else if k < n {
      ModBelow(k, n);
    } else {
      ModAbove(k, n);
    }
  }

  /** The index arithmetic of `append`: bounds, the new flag and the new count. */
  lemma AppendIndices<T>(r: Ring<T>, value: T)
    requires r.Valid()
    ensures var n := |r.buffer|;
      var end' := (r.end + 1) % n;
      var start' := if r.isFull then (r.start + 1) % n else r.start;
      var a := Ring(r.buffer[r.end := value], start', end', end' == start');
      a.Valid() &&
      (a.isFull <==> r.isFull || r.Count() + 1 == n) &&
      a.Count() == if r.isFull then r.Count() else r.Count() + 1
  {
    var n, c := |r.buffer|, r.Count();
    var end' := (r.end + 1) % n;
    var start' := if r.isFull then (r.start + 1) % n else r.start;
    var a := Ring(r.buffer[r.end := value], start', end', end' == start');
    ModStep(r.end + 1, n);
    ModStep(r.start + 1, n);
    ModStep(r.start + c, n);
    ModStep(end' - start', n);
    if r.isFull {
      assert start' == end';
    } else {
      ModStep(r.end - r.start, n);
      assert end' == start' <==> c + 1 == n;
    }
  }

  /** The index arithmetic of `pop` on a non-empty buffer: bounds and the new count. */
  lemma PopIndices<T>(r: Ring<T>)
    requires r.Valid() && (r.isFull || r.start != r.end)
    ensures var p := Ring(r.buffer, (r.start + 1) % |r.buffer|, r.end, false);
      p.Valid() && p.Count() == r.Count() - 1 && r.Count() > 0
  {
    var n := |r.buffer|;
    var start' := (r.start + 1) % n;
    ModStep(r.start + 1, n);
    ModStep(r.end - r.start, n);
    ModStep(r.end - start', n);
  }

  datatype Ring<T> = Ring(buffer: seq<T>, start: nat, end: nat, isFull: bool) {

    /** The class invariant: a non-empty buffer, both indices inside it, and a full buffer has `start == end`. */
    predicate Valid()
    {
      |buffer| >= 1 && start < |buffer| && end < |buffer| && (isFull ==> start == end)
    }

    /** The number of live elements. */
    function Count(): (c: nat)
      requires Valid()
      ensures c <= |buffer|
      ensures c == |buffer| <==> isFull
      ensures end == (start + c) % |buffer|
    {
      ModStep(end - start, |buffer|);
      ModStep(start + (end - start) % |buffer|, |buffer|);
      ModStep(start + |buffer|, |buffer|);
      if isFull then |buffer| else (end - start) % |buffer|
    }

    /** The live elements in FIFO order: `Count()` slots read from `start` onwards, wrapping at the end of `buffer`. */
    function Contents(): seq<T>
      requires Valid()
    {
      seq(Count(), i requires 0 <= i < Count() => buffer[(start + i) % |buffer|])
    }

    /** `append(value)`: write at `end`, advance `end`; on a full buffer advance `start` too. */
    function Append(value: T): (r: Ring<T>)
      requires Valid()
      ensures r.Valid() && |r.buffer| == |buffer|
      ensures r.isFull <==> isFull || Count() + 1 == |buffer|
      ensures r.Count() == if isFull then Count() else Count() + 1
    {
      var n := |buffer|;
      var end' := (end + 1) % n;
      var start' := if isFull then (start + 1) % n else start;
      AppendIndices(this, value);
      Ring(buffer[end := value], start', end', end' == start')
    }

    /**
     * `pop()`: `IndexError` with the state unchanged when the buffer is empty; otherwise the
     * value at `start`, with `start` advanced and the flag cleared. The storage is not written.
     */
    function Pop(): (r: (Result<T>, Ring<T>))
      requires Valid()
      ensures r.1.Valid() && r.1.buffer == buffer
      ensures r.0.IndexError? <==> Count() == 0
      ensures r.0.IndexError? ==> r.1 == this
      ensures r.0.Ok? ==> r.0.value == buffer[start] && !r.1.isFull && r.1.Count() == Count() - 1
    {
      if !isFull && start == end then (IndexError, this)
      else
        PopIndices(this);
        (Ok(buffer[start]), Ring(buffer, (start + 1) % |buffer|, end, false))
    }

    /**
     * `__repr__` without its text: the whole storage when full, otherwise the slice from
     * `start` to `end`, or the two segments `buffer[start:]` and `buffer[:end]` when it wraps.
     * Only a non-full buffer is shown in FIFO order; a full one is shown in storage order,
     * which is FIFO order rotated by `start`.
     */
    function Display(): (v: seq<T>)
      requires Valid()
      ensures !isFull ==> v == Contents()
      ensures isFull ==> |v| == |buffer|
      ensures isFull ==> forall i :: 0 <= i < |buffer| ==> v[(start + i) % |buffer|] == Contents()[i]
      ensures isFull && start == 0 ==> v == Contents()
    {
      var n := |buffer|;
      var v := if isFull then buffer
        else if start <= end then buffer[start..end]
        else buffer[start..] + buffer[..end];
      assert !isFull ==> v == Contents() by {
        if !isFull {
          ModStep(end - start, n);
          forall i | 0 <= i < |v| ensures v[i] == Contents()[i] {
            ModStep(start + i, n);
          }
        }
      }
      assert isFull && start == 0 ==> v == Contents() by {
        if isFull && start == 0 {
          forall i | 0 <= i < n ensures v[i] == Contents()[i] {
            ModStep(i, n);
          }
        }
      }
      v
    }
  }

  /** `CircularBufferList(size)`: every slot holds `blank`, nothing is live. */
  function Create<T>(size: nat, blank: T): (r: Ring<T>)
    requires size >= 1
    ensures r.Valid() && |r.buffer| == size && r.Contents() == []
  {
    Ring(seq(size, _ => blank), 0, 0, false)
  }

  /** Runs `ops` on the ring `r`; yields the final state and the outcome of every `pop`, in order. */
  function Run<T>(r: Ring<T>, ops: seq<Op<T>>): (res: (Ring<T>, seq<Result<T>>))
    requires r.Valid()
    ensures res.0.Valid() && |res.0.buffer| == |r.buffer|
    decreases |ops|
  {
    if ops == [] then (r, [])
    else match ops[0]
      case Append(x) => Run(r.Append(x), ops[1..])
      case Pop =>
        var (out, next) := r.Pop();
        var (final, outs) := Run(next, ops[1..]);
        (final, [out] + outs)
  }

  /** `append` on a full buffer: the oldest element is dropped and `x` becomes the newest. */
  lemma AppendFullContents<T>(r: Ring<T>, x: T)
    requires r.Valid() && r.isFull
    ensures r.Append(x).Contents() == r.Contents()[1..] + [x]
  {
    var n, s, a := |r.buffer|, r.Contents(), r.Append(x);
    var t, u := a.Contents(), s[1..] + [x];
    assert |t| == n == |u|;
    ModStep(r.start + 1, n);
    assert a.start == (r.start + 1) % n;
    forall i | 0 <= i < n ensures t[i] == u[i] {
      var k := (a.start + i) % n;
      assert t[i] == a.buffer[k];
      ModStep(a.start + i, n);
      ModStep(r.start + 1 + i, n);
      assert k == (r.start + 1 + i) % n;
      if i < n - 1 {
        assert u[i] == s[i + 1] == r.buffer[(r.start + (i + 1)) % n];
        assert k != r.end;
      } else {
        assert k == r.end;
      }
    }
  }

  /** `append` on a buffer that is not full: `x` is added after the existing elements. */
  lemma AppendNotFullContents<T>(r: Ring<T>, x: T)
    requires r.Valid() && !r.isFull
    ensures r.Append(x).Contents() == r.Contents() + [x]
  {
    var n, c, s, a := |r.buffer|, r.Count(), r.Contents(), r.Append(x);
    var t, u := a.Contents(), s + [x];
    assert |t| == c + 1 == |u|;
    assert a.start == r.start;
    ModStep(r.start + c, n);
    forall i | 0 <= i < c + 1 ensures t[i] == u[i] {
      var k := (r.start + i) % n;
      assert t[i] == a.buffer[k];
      ModStep(r.start + i, n);
      if i < c {
        assert u[i] == s[i] == r.buffer[k];
        assert k != r.end;
      } else {
        assert k == r.end;
      }
    }
  }

  /**
   * Refinement of `append`: the live contents after `append(x)` are those of a deque with
   * `maxlen == size` after `append(x)`. On a full buffer exactly the oldest element is dropped.
   */
  lemma AppendRefines<T>(r: Ring<T>, x: T)
    requires r.Valid()
    ensures r.Append(x).Contents() == BoundedQueue.Push(r.Contents(), |r.buffer|, x)
    ensures r.isFull ==> r.Append(x).Contents() == r.Contents()[1..] + [x]
  {
    if r.isFull {
      AppendFullContents(r, x);
    } else {
      AppendNotFullContents(r, x);
    }
  }

  /** Refinement of `pop`: same outcome and same remaining contents as `popleft` on the deque, `IndexError` on empty. */
  lemma PopRefines<T>(r: Ring<T>)
    requires r.Valid()
    ensures r.Pop().0 == BoundedQueue.PopLeft(r.Contents()).0
    ensures r.Pop().1.Contents() == BoundedQueue.PopLeft(r.Contents()).1
  {
    var n, s := |r.buffer|, r.Contents();
    var (out, next) := r.Pop();
    if out.Ok? {
      ModStep(r.start, n);
      var t := next.Contents();
      forall i | 0 <= i < |t| ensures t[i] == s[i + 1] {
        ModStep(r.start + 1, n);
        ModStep(next.start + i, n);
        ModStep(r.start + i + 1, n);
      }
    }
  }

  /**
   * For every sequence of calls, the array buffer and a deque with `maxlen == size` that start
   * with the same contents end with the same contents and give the same `pop` outcomes.
   */
  lemma {:induction false} RunRefines<T>(r: Ring<T>, ops: seq<Op<T>>)
    requires r.Valid()
    ensures Run(r, ops).0.Contents() == BoundedQueue.Run(r.Contents(), |r.buffer|, ops).0
    ensures Run(r, ops).1 == BoundedQueue.Run(r.Contents(), |r.buffer|, ops).1
    decreases |ops|
  {
    if ops != [] {
      match ops[0]
      case Append(x) =>
        AppendRefines(r, x);
        RunRefines(r.Append(x), ops[1..]);
      case Pop =>
        PopRefines(r);
        RunRefines(r.Pop().1, ops[1..]);
    }
  }

  /**
   * A new buffer of capacity `size` holds `xs` after `size` appends and is full; one more
   * append evicts exactly the oldest element `xs[0]`.
   */
  lemma FillThenOverflow<T>(blank: T, xs: seq<T>, y: T)
    requires |xs| >= 1
    ensures Run(Create(|xs|, blank), Appends(xs)).0.isFull
    ensures Run(Create(|xs|, blank), Appends(xs)).0.Contents() == xs
    ensures Run(Create(|xs|, blank), Appends(xs)).0.Append(y).Contents() == xs[1..] + [y]
  {
    var r := Create(|xs|, blank);
    RunRefines(r, Appends(xs));
    BoundedQueue.AppendsWithinCapacity([], |xs|, xs);
    assert [] + xs == xs;
    AppendRefines(Run(r, Appends(xs)).0, y);
  }

  /**
   * Capacity 3: after appending 1, 2, 3 the buffer is full and shows `[1, 2, 3]`; after
   * appending 4 the display is the storage `[4, 2, 3]` while the FIFO contents are
   * `[2, 3, 4]`; `pop` then returns 2, clears the flag, and the display becomes `[3, 4]`.
   */
  lemma CapacityThreeExample()
    ensures Create(3, 0).Append(1).Append(2).Append(3).isFull
    ensures Create(3, 0).Append(1).Append(2).Append(3).Display() == [1, 2, 3]
    ensures Create(3, 0).Append(1).Append(2).Append(3).Append(4).Display() == [4, 2, 3]
    ensures Create(3, 0).Append(1).Append(2).Append(3).Append(4).Contents() == [2, 3, 4]
    ensures Create(3, 0).Append(1).Append(2).Append(3).Append(4).Pop().0 == Ok(2)
    ensures !Create(3, 0).Append(1).Append(2).Append(3).Append(4).Pop().1.isFull
    ensures Create(3, 0).Append(1).Append(2).Append(3).Append(4).Pop().1.Display() == [3, 4]
  {
    var r3 := Create(3, 0).Append(1).Append(2).Append(3);
    assert r3 == Ring([1, 2, 3], 0, 0, true);
    var r4 := r3.Append(4);
    assert r4 == Ring([4, 2, 3], 1, 1, true);
    AppendFullContents(r3, 4);
    assert r3.Contents() == [1, 2, 3] by {
      assert r3.Display() == r3.Contents();
    }
    assert r4.Pop() == (Ok(2), Ring([4, 2, 3], 2, 1, false));
  }
}
