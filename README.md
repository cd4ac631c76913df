# Fixed-capacity ring buffer, verified model

This project models `question_2.py`, a fixed-capacity FIFO ring buffer written two ways.

- `CircularBufferList` keeps a preallocated list `buffer` of length `size`. It also keeps the index `start` of the oldest element, the index `end` of the next write and a flag `is_full`. The flag tells a full buffer from an empty one when `start == end`. `append` writes at `end`. On a full buffer it also advances `start`, which silently overwrites the oldest element. `pop` raises `IndexError` on an empty buffer and otherwise returns the element at `start`.
- `CircularBufferDeque` wraps `deque(maxlen=size)`. Appending to a full deque discards the front element, and `pop` is `popleft` guarded by an `IndexError` on empty.

Modules:

- `Outcomes` (outcomes.dfy): `Result<T>` is `Ok(value)` or `IndexError`. `Op<T>` is one client call.
- `BoundedQueue` (bounded_queue.dfy): the deque's documented `maxlen` behaviour on plain sequences. This is the abstract specification.
- `RingModel` (ring_model.dfy): the fields of `CircularBufferList` as a datatype `Ring`, with `append`, `pop` and `__repr__` as functions. It also holds the lemmas showing that the live contents refine `BoundedQueue`.
- `CircularBuffer` (circular_buffer.dfy): both classes as Dafny classes that update their fields in place. `CircularBufferList` uses an `array`. Each method is specified by the matching `RingModel` or `BoundedQueue` function.

`__repr__` is modelled as the sequence of elements it prints. On a full buffer the code prints the whole storage in storage order. That equals FIFO order only when `start == 0`. With capacity 3, after appending 1, 2, 3, 4 it prints `[4, 2, 3]`, although the FIFO contents are `[2, 3, 4]`. The model follows the code: `RingModel.Ring.Display` states the rotation, and `RingModel.CapacityThreeExample` proves this case.

## Model

| member | source | states |
|---|---|---|
| `BoundedQueue.Push` | question_2.py:67-70 | appending to a deque with `maxlen` keeps exactly the newest `min(len + 1, maxlen)` elements of the old contents followed by the new value; the result never exceeds `maxlen` and ends with the new value when `maxlen > 0` |
| `BoundedQueue.PopLeft` | question_2.py:72-75 | `IndexError` exactly when the deque is empty, and then the contents are unchanged; otherwise the front value followed by the remaining contents is the old contents |
| `BoundedQueue.Run` | question_2.py:66-75 | any sequence of appends and pops keeps the deque within `maxlen`, and yields at most one outcome per call |
| `BoundedQueue.KeepsNewest` | question_2.py:67-70 | appending `xs` one by one leaves the newest `maxlen` elements of `s + xs` and produces no pop outcomes |
| `BoundedQueue.AppendsWithinCapacity` | question_2.py:69-70 | appends that fit in the capacity lose nothing: the contents become `s + xs` |
| `RingModel.Create` | question_2.py:18-23 | a new buffer of capacity `size >= 1` satisfies the invariant, has storage of length `size` and no live elements |
| `RingModel.Ring.Count` | question_2.py:25-37 | the live count is at most `size`; it equals `size` exactly when `is_full` holds; `end` is `start` plus the count, modulo `size` |
| `RingModel.Ring.Append` | question_2.py:25-30 | `append` keeps both indices in `[0, size)` and the storage length; the flag becomes true exactly when the buffer was full or held `size - 1` elements; the count rises by one unless the buffer was full, where it stays `size` |
| `RingModel.Ring.Pop` | question_2.py:32-38 | `IndexError` exactly when the count is 0, with the state unchanged; otherwise it returns `buffer[start]`, clears the flag, lowers the count by one and never writes the storage |
| `RingModel.Ring.Display` | question_2.py:40-46 | when not full, the slice or the two wrapped segments are exactly the FIFO contents; when full, the storage is the FIFO contents rotated by `start`, and equals them when `start == 0` |
| `RingModel.Run` | question_2.py:25-38 | any sequence of appends and pops preserves the invariant and the storage length |
| `RingModel.AppendFullContents` | question_2.py:26-30 | appending to a full buffer drops exactly the oldest element and adds the value as the newest |
| `RingModel.AppendNotFullContents` | question_2.py:26-30 | appending to a buffer that is not full adds the value after the existing elements |
| `RingModel.AppendRefines` | question_2.py:25-30 | the live contents after `append` equal those of a deque with `maxlen == size` after the same `append` |
| `RingModel.PopRefines` | question_2.py:32-38 | `pop` gives the same outcome and leaves the same live contents as the deque's `pop`, including `IndexError` on empty |
| `RingModel.RunRefines` | question_2.py:25-38 | for every sequence of calls, the array buffer and the deque end with the same contents and return the same pop outcomes |
| `RingModel.FillThenOverflow` | question_2.py:25-30 | after `size` appends to a new buffer it is full and holds them in order; one more append evicts exactly the first |
| `RingModel.CapacityThreeExample` | question_2.py:25-46 | capacity 3: after 1, 2, 3 the buffer is full and shows `[1, 2, 3]`; after 4 it shows `[4, 2, 3]` with FIFO contents `[2, 3, 4]`; `pop` then returns 2, clears the flag and shows `[3, 4]` |
| `CircularBuffer.CircularBufferList.constructor` | question_2.py:18-23 | a new buffer has storage of length `size`, both indices 0, the flag clear and no live elements |
| `CircularBuffer.CircularBufferList.Append` | question_2.py:25-30 | writes the value at `end` in place and updates `end`, `start` and the flag as the code does; the array and `size` stay the same; the new state is `Ring.Append` of the old one, and the live contents are the deque's `append` of the old contents |
| `CircularBuffer.CircularBufferList.Pop` | question_2.py:32-38 | never writes the array or `end`; on empty it returns `IndexError` and leaves every field unchanged; otherwise it returns the old `buffer[start]` and advances `start`; the result and live contents match the deque's `pop` |
| `CircularBuffer.CircularBufferList.Repr` | question_2.py:40-46 | a buffer that is not full shows its FIFO contents; a full one shows its storage, which is the FIFO contents rotated by `start` |
| `CircularBuffer.CircularBufferDeque.constructor` | question_2.py:66-67 | a new deque is empty with `maxlen` equal to `size` |
| `CircularBuffer.CircularBufferDeque.Append` | question_2.py:69-70 | the contents become the bounded `append` of the old contents, and stay within `maxlen` |
| `CircularBuffer.CircularBufferDeque.Pop` | question_2.py:72-75 | result and new contents are the bounded queue's `pop` of the old contents: `IndexError` on empty, otherwise the front |
| `CircularBuffer.CircularBufferDeque.Repr` | question_2.py:77-78 | the shown list never holds more than `maxlen` elements |
| `CircularBuffer.DequeCapacityThree` | question_2.py:66-78 | capacity 3: after appending 1, 2, 3, 4 the deque shows `[2, 3, 4]`; `pop` returns 2 and leaves `[3, 4]` |
| `CircularBuffer.EmptyPopExample` | question_2.py:32-34 | `pop` on a new buffer of capacity 2 raises `IndexError` in both variants |

## Left out

- The text of `__repr__` is not modelled: the Russian and English prefixes and Python's list formatting. Both `Repr` functions return the element sequence.
- The messages carried by `IndexError` are not modelled; `Result.IndexError` has no payload.
- `collections.deque` itself is not part of this model. It is replaced by a sequence with its documented `maxlen` behaviour. A `maxlen` of `None` (unbounded) and a negative size are not modelled; `size` is a `nat`.
- A `CircularBufferList` of size 0 is excluded by the constructor's `requires size >= 1`. In the code it builds. Its first `append` raises `IndexError` writing into the empty list (question_2.py:26), before the `% 0` on line 27 would run. `pop` and `__repr__` on it behave as on an empty buffer (`IndexError`, an empty slice) and are not modelled either.
- The `None` placeholders of unwritten slots become the element type's default value (`T(0)`). No behaviour depends on them. Python's dynamic typing becomes one type parameter `T`.
- The capacity-3 example of `CircularBufferList` is proved on the value-level model (`RingModel.CapacityThreeExample`) and not by running the class's methods. The methods are tied to that model by their `State()` postconditions.
