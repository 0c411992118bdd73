# Outgoing-message fragmentation (rosbridge `Fragmentation` capability)

This project models the fragmentation capability of rosbridge. The capability
turns one serialized message that is longer than a frame-size cap into a
sequence of frames `{op, id, data, num, total, fill}`. Each frame carries one
slice of the serialized text. Each frame is padded with `'0'` characters so
that its printed length is exactly the cap.

The model has four modules:

- `Decimal` (`decimal.dfy`): decimal digit counts (`Digits`, the integer form of
  `floor(log10 x) + 1`) and small integer facts about floor division.
- `Planner` (`planner.dfy`): the planner loop `_determine_n_fragments`. Header
  lengths are abstract. `HeaderLen(base, num, total) = base + Digits(num) +
  Digits(total)`, where `base` is the printed length of a frame record with
  empty data and fill, less the characters of its `num` and `total` fields. The
  header the source measures with `num = total = 0` is therefore `base + 2`.
  The loop is written as a method. One pass of the loop is the function
  `Advance`, and `Trial(k)` is the loop state after `k` passes. The reference
  answer is `IsPlanTotal`: the least frame count whose budget
  `(len + sum of the headers) / count + 1` fits the cap.
- `Frames` (`frames.dfy`): the frame record, `_create_fragment`
  (`CreateFragment`), Python slicing (`PySlice`, with negative bounds and
  clamping), and the generator `_fragment_generator`. `FrameAt(n)` is the n-th
  frame the generator yields for a given per-frame budget, and `FramesUpTo(n)`
  the first n of them. `SliceFrames` is the generator's slicing loop, and
  `FragmentGenerator` is the whole generator run to exhaustion.
- `Options` and `Fragmentation` (`fragmentation.dfy`): the entry point
  `fragment`. It assigns the identifier from a per-instance counter, serializes,
  and short-circuits. With a cap of zero and a longer serialized text the
  part-count estimate divides by zero, and the call raises
  (`Outcome.ZeroDivision`). The serializer is a function parameter of type
  `(M, MsgId) -> Option<string>`. `fragment` hands back a generator object in
  the source. Here that is `Outcome.Generator(serialized, size, mid)`, the
  arguments the generator captures. Consuming it is `FragmentGenerator`.

Division is Python 2 integer division on non-negative operands, i.e. floor
division. That is Dafny's `/` on these operands.

Points where the code's behaviour is easy to misread:

- The generator wraps the planner in an `except RuntimeError` handler that
  logs "Header size is to large for message size" and yields `[]` (lines
  95-97). Nothing in the planner raises `RuntimeError`, so that handler is
  unreachable. When the cap cannot hold even the smallest header, the loop at
  line 116 never ends instead (`HeaderTooLargeNeverHalts`).
- The budget the planner returns is `msg_len / total + 1` (line 127), not the
  plain average of the accumulated length. That is what `Budget` models.
- The header is charged with its old width before it widens at a digit
  boundary. When the count goes from t to t + 1 at a boundary, the extra
  `msg_len += temp` (line 122) adds t + 1 characters, one for the new digit
  of each frame's `total` field. The newest frame's `num` is t, which keeps
  its width. The sum comes out exact (`StepAccounting`).

## Model

| member | source | states |
|---|---|---|
| `Fragmentation.AssignId` | rosbridge_library/src/rosbridge_library/capabilities/fragmentation.py:66-68 | without a caller id the call uses the current seed and the seed grows by exactly one; with a caller id that id is used unchanged and the seed is untouched |
| `Fragmentation.Fragment` | rosbridge_library/src/rosbridge_library/capabilities/fragmentation.py:66-86 | the result is empty exactly when the serializer fails; it is the original message exactly when the serialized text fits the cap; for a longer text it is the division-by-zero failure of the part-count estimate (line 81) exactly when the cap is zero, and otherwise a generator over that serialized text, that cap and the chosen id; the id and seed behave as in AssignId in every case |
| `Fragmentation.AutoIdIsCounter` | rosbridge_library/src/rosbridge_library/capabilities/fragmentation.py:66-68 | in a run of calls on one instance, the k-th call without a caller id gets the starting seed plus the number of earlier calls without one |
| `Fragmentation.FreshInstanceIds` | rosbridge_library/src/rosbridge_library/capabilities/fragmentation.py:41-43 | a new instance starts its counter at zero, so in a run from a fresh instance the k-th call without a caller id gets the number of earlier such calls as its id: 0, 1, 2, ... |
| `Fragmentation.AutoIdsDistinct` | rosbridge_library/src/rosbridge_library/capabilities/fragmentation.py:66-68 | two calls of one run that both leave the id to the counter get different ids |
| `Fragmentation.GivenIdUsed` | rosbridge_library/src/rosbridge_library/capabilities/fragmentation.py:66-70 | a call with a caller id uses exactly that id, wherever it sits in a run |
| `Planner.DetermineNFragments` | rosbridge_library/src/rosbridge_library/capabilities/fragmentation.py:110-127 | when the loop stops, `total >= 1` is the least frame count whose budget fits, every smaller count exceeds the cap, and the returned budget `msg_len // total + 1` is at most the cap |
| `Planner.Share` | rosbridge_library/src/rosbridge_library/capabilities/fragmentation.py:116 | the planner's share of an accumulated length among `total` frames: floor division plus one, as in the loop guard and the returned budget (line 127) |
| `Planner.Advance` | rosbridge_library/src/rosbridge_library/capabilities/fragmentation.py:117-124 | one pass of the planner loop: charge one header of the current width, try one more frame, and when the new count has more digits also charge one character per frame and widen the header by two |
| `Planner.TrialAccounting` | rosbridge_library/src/rosbridge_library/capabilities/fragmentation.py:112-125 | after k passes the loop has tried k + 1 frames; its accumulated length is the message length plus the headers of all k + 1 frames; its header size has grown by two per digit boundary crossed, i.e. equals base + 2 * Digits(total) |
| `Planner.TrialLength` | rosbridge_library/src/rosbridge_library/capabilities/fragmentation.py:112-125 | after k passes the accumulated length is the message length plus the headers of all k + 1 frames, each charged at its final width |
| `Planner.TrialHeader` | rosbridge_library/src/rosbridge_library/capabilities/fragmentation.py:112-124 | after k passes the header size is base + 2 * Digits(k + 1): it widens by two exactly when the count gains a digit |
| `Planner.StepAccounting` | rosbridge_library/src/rosbridge_library/capabilities/fragmentation.py:117-124 | one pass adds one header of the current width, and at a digit boundary `total + 1` more characters: exactly what the new header sum needs |
| `Planner.HeaderSumRetotal` | rosbridge_library/src/rosbridge_library/capabilities/fragmentation.py:118-123 | raising the count by one widens every existing header by one character at a digit boundary and leaves them unchanged otherwise |
| `Planner.CrossingsCountDigits` | rosbridge_library/src/rosbridge_library/capabilities/fragmentation.py:118-123 | the number of digit boundaries crossed from 1 up to t is Digits(t) - 1 |
| `Planner.HeaderTooLargeNeverHalts` | rosbridge_library/src/rosbridge_library/capabilities/fragmentation.py:93-127 | when the cap is at most the zero-digit header size, no frame count fits: the loop guard never turns false and the error branch is never reached |
| `Planner.BudgetBelow` | rosbridge_library/src/rosbridge_library/capabilities/fragmentation.py:116-127 | for a message no longer than the frame count t, when every header of t frames is at most w long, the budget `msg_len / t + 1` for t frames is at most w + 2 |
| `Planner.RoomyCapHalts` | rosbridge_library/src/rosbridge_library/capabilities/fragmentation.py:110-127 | for a non-empty message and a cap of at least header_size + 2 * Digits(len), the count len(msg) fits, so the loop stops, and the planned count is at most len(msg) |
| `Decimal.DigitsBracket` | rosbridge_library/src/rosbridge_library/capabilities/fragmentation.py:119-120 | for x >= 1, Digits(x) - 1 is floor(log10 x): 10^(Digits(x)-1) <= x < 10^Digits(x) |
| `Decimal.DigitsOfBracket` | rosbridge_library/src/rosbridge_library/capabilities/fragmentation.py:119-120 | conversely, a number in [10^(d-1), 10^d) has exactly d digits |
| `Decimal.DigitsStep` | rosbridge_library/src/rosbridge_library/capabilities/fragmentation.py:118-121 | moving from t to t + 1 adds at most one digit, so a crossing widens the header by exactly two |
| `Frames.CreateFragment` | rosbridge_library/src/rosbridge_library/capabilities/fragmentation.py:129-139 | the frame record: op "fragment" and the given id, data, num, total and fill |
| `Frames.FragSize` | rosbridge_library/src/rosbridge_library/capabilities/fragmentation.py:99 | the payload length of frame n: the budget less the printed header of frame n of `total` (also line 108) |
| `Frames.Cursor` | rosbridge_library/src/rosbridge_library/capabilities/fragmentation.py:98-107 | the slice start `i` before frame n: 0, then the payload lengths of frames 0 .. n-1 added up (line 107) |
| `Frames.Payload` | rosbridge_library/src/rosbridge_library/capabilities/fragmentation.py:101 | the slice frame n carries: from the cursor, the payload length of characters, cut at the end of the message |
| `Frames.FillLength` | rosbridge_library/src/rosbridge_library/capabilities/fragmentation.py:102-105 | the fill length: the gap between the cap and the budget, plus the amount by which the slice would run past the end of the message |
| `Frames.Zeros` | rosbridge_library/src/rosbridge_library/capabilities/fragmentation.py:106 | the fill has max(fill_length, 0) characters, all of them `'0'` |
| `Frames.PySlice` | rosbridge_library/src/rosbridge_library/capabilities/fragmentation.py:101 | for in-range bounds the slice is the subsequence between them; a slice starting at or past the end is empty |
| `Frames.FrameAt` | rosbridge_library/src/rosbridge_library/capabilities/fragmentation.py:99-108 | frame n has op "fragment", the shared id, num n, the common total and an all-zero fill; when the budget is within the cap and the slice is well formed it prints at exactly the cap; a final short slice takes the rest of the message and its shortfall goes into the fill |
| `Frames.FramesUpToAt` | rosbridge_library/src/rosbridge_library/capabilities/fragmentation.py:98-108 | the k-th entry of the first n frames yielded is frame k, for every k below n |
| `Frames.CursorClosedForm` | rosbridge_library/src/rosbridge_library/capabilities/fragmentation.py:98-108 | the cursor before frame n is n budgets less the headers of frames 0 .. n-1 |
| `Frames.CursorPassesEnd` | rosbridge_library/src/rosbridge_library/capabilities/fragmentation.py:99-127 | the payload lengths of all planned frames add up to more than the message length |
| `Frames.SliceContinues` | rosbridge_library/src/rosbridge_library/capabilities/fragmentation.py:101-107 | the slice at a non-negative cursor continues exactly the prefix taken so far, so consecutive slices are adjacent and do not overlap |
| `Frames.JoinPrefix` | rosbridge_library/src/rosbridge_library/capabilities/fragmentation.py:100-107 | with non-negative payload lengths, the data of the first k frames is the message up to the cursor after k frames |
| `Frames.Reassembles` | rosbridge_library/src/rosbridge_library/capabilities/fragmentation.py:98-108 | with non-negative payload lengths that together reach the end of the message, concatenating the frames' data in num order reproduces the serialized message exactly |
| `Frames.SliceFrames` | rosbridge_library/src/rosbridge_library/capabilities/fragmentation.py:98-108 | for any budget and count, the slicing loop yields exactly `total` frames and frame n is FrameAt(n): the payload at the running cursor, num n, the shared id and total, and the fill that makes up the cap |
| `Frames.FragmentGenerator` | rosbridge_library/src/rosbridge_library/capabilities/fragmentation.py:88-108 | the generator yields exactly the planned number of frames with nums 0 .. total-1, one id, one total and zero fill; every well-formed frame prints at exactly the cap; the data reassembles the message when no payload length is negative |

## Left out

- Logging and the duration estimate (lines 81-84) are advisory, and the estimate uses floating point, so their values are not modelled. Their one effect on the outcome is modelled: with a cap of zero, `message_length / float(fragment_size)` raises `ZeroDivisionError`, which is `Outcome.ZeroDivision`. The unused `msg_id` (line 79) is dropped.
- The `Capability` superclass, `protocol.serialize`, `protocol.log` and `delay_between_messages` are collaborators. The serializer is a function parameter. The header length of a record for a given id is the parameter `base`.
- The exact length of Python's `str(dict)` is abstracted as `HeaderLen(base, num, total) + |data| + |fill|`. Repr escaping of quotes and backslashes, the `u''` prefix of Python 2 unicode strings, and key order are not modelled.
- The digit test `math.floor(math.log(x) / math.log(10))` (lines 119-120) is modelled with integer digit counts. In IEEE doubles the quotient falls just below the exact value at several powers of ten: 10^3, 10^6, 10^9, 10^12, 10^13, 10^15, and so on. The source therefore misses those crossings. At 999 to 1000 it neither widens the header nor charges the extra 1000 characters. It detects the boundary one pass late instead, at 1000 to 1001, where line 122 adds 1001. The frames still print at the cap, because the generator measures real headers. But the planned payload lengths can then add up to less than the message, so its tail would not be sent. Floating-point logarithms are not modelled.
- Generator laziness is not modelled. `fragment` returns the captured arguments, and `FragmentGenerator` consumes the generator to the end. Abandoning a generator part-way has no effect on the model.
- The `except RuntimeError` branch that yields `[]` (lines 95-97) is not modelled, because nothing in the planner raises. When no frame count fits, consuming the generator never returns. `FragmentGenerator` and `DetermineNFragments` require `Halts`, which says exactly that the loop stops.
- The planner's list `A` is kept only as far as the guard reads it. The loop invariant pins its last element to the accumulated length, not every earlier entry.
- `MsgId` covers integer and string ids. The source accepts any Python value as `mid`.
- Frames.FrameAt: the exact-size promise holds only when the budget is within the cap and the frame's slice length is non-negative and starts within the message. The source does not guarantee this in general, and the model does not derive it from the plan.
- Frames.FragmentGenerator: exact frame size is stated under the same well-formedness condition as FrameAt, and reassembly under non-negative payload lengths for every frame. The model does not prove either condition from the plan.
