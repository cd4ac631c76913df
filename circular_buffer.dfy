/**
 * The two ring buffers of question_2.py as classes whose methods update their fields in place.
 * `CircularBufferList` keeps a preallocated array and three indices/flags; every method is
 * specified by the matching function of RingModel and, through the refinement lemmas there,
 * by the bounded queue of BoundedQueue. `CircularBufferDeque` holds that bounded queue
 * directly, as `deque(maxlen=size)` does.
 */
module CircularBuffer {
  import opened Outcomes
  import BoundedQueue
  import RingModel

  class CircularBufferList<T(0)> {
    var buffer: array<T>
    var size: nat
    var start: nat
    var end: nat
    var isFull: bool

    /** The fields as a RingModel value. */
    function State(): RingModel.Ring<T>
      reads this, buffer
    {
      RingModel.Ring(buffer[..], start, end, isFull)
    }

    ghost predicate Valid()
      reads this, buffer
    {
      buffer.Length == size && State().Valid()
    }

    /** The live elements, oldest first. */
    ghost function Contents(): seq<T>
      reads this, buffer
      requires Valid()
    {
      State().Contents()
    }

    /** `CircularBufferList(size)`; a size of 0 would make the first `append` fail, so it is excluded. */
    constructor (size: nat)
      requires size >= 1
      ensures Valid() && fresh(buffer)
      ensures this.size == size && start == 0 && end == 0 && !isFull
      ensures Contents() == []
    {
      buffer := new T[size];
      this.size := size;
      start := 0;
      end := 0;
      isFull := false;
      RingModel.ModStep(0, size);
    }

    /** `append(value)`: never fails; on a full buffer it overwrites the oldest element. */
    method Append(value: T)
      requires Valid()
      modifies this, buffer
      ensures Valid() && buffer == old(buffer) && size == old(size)
      ensures buffer[..] == old(buffer[..])[old(end) := value]
      ensures end == (old(end) + 1) % size
      ensures start == if old(isFull) then (old(start) + 1) % size else old(start)
      ensures isFull <==> end == start
      ensures State() == old(State()).Append(value)
      ensures Contents() == BoundedQueue.Push(old(Contents()), size, value)
    {
      ghost var before := State();
      ghost var after := before.Append(value);
      RingModel.ModStep(end + 1, size);
      RingModel.ModStep(start + 1, size);
      buffer[end] := value;
      end := (end + 1) % size;
      if isFull {
        start := (start + 1) % size;
      }
      isFull := end == start;
      assert State() == after by {
        assert buffer[..] == after.buffer;
      }
      assert Valid();
      assert Contents() == BoundedQueue.Push(old(Contents()), size, value) by {
        assert Contents() == after.Contents();
        assert old(Contents()) == before.Contents();
        RingModel.AppendRefines(before, value);
      }
    }

    /** `pop()`: `IndexError` on an empty buffer, leaving every field as it was; otherwise the oldest element. */
    method Pop() returns (r: Result<T>)
      requires Valid()
      modifies this
      ensures Valid() && buffer == old(buffer) && size == old(size)
      ensures buffer[..] == old(buffer[..]) && end == old(end)
      ensures r.IndexError? ==> start == old(start) && isFull == old(isFull)
      ensures r.Ok? ==> r.value == old(buffer[start]) && start == (old(start) + 1) % size && !isFull
      ensures (r, State()) == old(State()).Pop()
      ensures (r, Contents()) == BoundedQueue.PopLeft(old(Contents()))
    {
      if !isFull && start == end {
        return IndexError;
      }
      var value := buffer[start];
      start := (start + 1) % size;
      isFull := false;
      RingModel.PopRefines(old(State()));
      return Ok(value);
    }

    /** `__repr__` without its text (see RingModel.Ring.Display). */
    function Repr(): (r: seq<T>)
      reads this, buffer
      requires Valid()
      ensures !isFull ==> r == Contents()
      ensures isFull ==> r == buffer[..]
      ensures isFull ==> forall i :: 0 <= i < size ==> r[(start + i) % size] == Contents()[i]
    {
      State().Display()
    }
  }

  class CircularBufferDeque<T> {
    /** The deque's elements, front first. */
    var buffer: seq<T>
    /** The deque's `maxlen`. */
    var maxlen: nat

    ghost predicate Valid()
      reads this
    {
      |buffer| <= maxlen
    }

    /** `CircularBufferDeque(size)`: an empty deque with `maxlen=size`. */
    constructor (size: nat)
      ensures Valid() && buffer == [] && maxlen == size
    {
      buffer := [];
      maxlen := size;
    }

    /** `append(value)`: a full deque first discards its front element. */
    method Append(value: T)
      requires Valid()
      modifies this
      ensures Valid() && maxlen == old(maxlen)
      ensures buffer == BoundedQueue.Push(old(buffer), maxlen, value)
    {
      if |buffer| == maxlen {
        if maxlen == 0 {
          return;
        }
        buffer := buffer[1..];
      }
      buffer := buffer + [value];
    }

    /** `pop()`: `IndexError` on an empty deque, otherwise `popleft()`. */
    method Pop() returns (r: Result<T>)
      requires Valid()
      modifies this
      ensures Valid() && maxlen == old(maxlen)
      ensures (r, buffer) == BoundedQueue.PopLeft(old(buffer))
    {
      if buffer == [] {
        return IndexError;
      }
      r := Ok(buffer[0]);
      buffer := buffer[1..];
    }

    /** `__repr__` without its text: the elements front first. */
    function Repr(): (r: seq<T>)
      reads this
      requires Valid()
      ensures |r| <= maxlen
    {
      buffer
    }
  }

  /** The deque variant under the same calls: it shows `[2, 3, 4]` after the fourth append and pops 2. */
  method DequeCapacityThree() returns (overflowed: seq<int>, popped: Result<int>, rest: seq<int>)
    ensures overflowed == [2, 3, 4]
    ensures popped == Ok(2)
    ensures rest == [3, 4]
  {
    var d := new CircularBufferDeque<int>(3);
    d.Append(1);
    d.Append(2);
    d.Append(3);
    d.Append(4);
    overflowed := d.Repr();
    popped := d.Pop();
    rest := d.Repr();
  }

  /** Capacity 2: `pop` on a new buffer raises `IndexError`, in both variants. */
  method EmptyPopExample() returns (listPopped: Result<int>, dequePopped: Result<int>)
    ensures listPopped == IndexError
    ensures dequePopped == IndexError
  {
    var b := new CircularBufferList<int>(2);
    listPopped := b.Pop();
    var d := new CircularBufferDeque<int>(2);
    dequePopped := d.Pop();
  }
}
