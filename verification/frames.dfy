/** Building the frames of a fragmented message: a cursor walks the serialized
    text, each frame takes one slice of it, and zero-padding brings every frame's
    printed length up to the size cap. */
module Frames {
  import opened Decimal
  import opened Planner

  /** The shared identifier of a fragmented message: an auto-assigned number or
      whatever value the caller supplied. */
  datatype MsgId = IntId(n: int) | StrId(s: string)

  /** One frame record: {op, id, data, num, total, fill}. */
  datatype Frame = Frame(op: string, id: MsgId, data: string, num: nat, total: nat, fill: string)

  /** The frame record for one slice of the message. */
  function CreateFragment(data: string, num: nat, total: nat, mid: MsgId, fill: string): Frame
  {
    Frame("fragment", mid, data, num, total, fill)
  }

  /** Printed length of a frame: its header plus the data and fill characters. */
  function FrameLen(base: nat, f: Frame): nat
  {
    HeaderLen(base, f.num, f.total) + |f.data| + |f.fill|
  }

  /** k copies of '0'; none when k is zero or negative. */
  function Zeros(k: int): (z: string)
    ensures |z| == (if k > 0 then k else 0)
    ensures forall j :: 0 <= j < |z| ==> z[j] == '0'
    decreases k
  {
    if k <= 0 then "" else "0" + Zeros(k - 1)
  }

  function Min(a: int, b: int): int
  {
    if a <= b then a else b
  }

  /** A slice bound as Python normalises it: a negative bound counts from the end,
      and the result is clamped to [0, len]. */
  function SliceBound(k: int, len: nat): (r: nat)
    ensures r <= len
  {
    if k < 0 then (if k + len < 0 then 0 else k + len)
    else if k > len then len
    else k
  }

  /** Python's s[a:b]. */
  function PySlice(s: string, a: int, b: int): (r: string)
    ensures 0 <= a <= b <= |s| ==> r == s[a..b]
    ensures |s| <= a ==> r == []
    ensures |r| <= |s|
  {
    var lo := SliceBound(a, |s|);
    var hi := SliceBound(b, |s|);
    if lo < hi then s[lo..hi] else []
  }

  /** Payload length of frame n: the budget less that frame's header. */
  function FragSize(budget: int, base: nat, n: nat, total: nat): int
  {
    budget - HeaderLen(base, n, total)
  }

  /** Start of frame n's slice: the payload lengths of frames 0 .. n - 1 added up. */
  function Cursor(budget: int, base: nat, total: nat, n: nat): int
  {
    if n == 0 then 0 else Cursor(budget, base, total, n - 1) + FragSize(budget, base, n - 1, total)
  }

  /** Padding for a frame whose slice starts at i and is fragSize long: the gap
      between cap and budget, plus whatever the slice falls short at the end of
      the message. */
  function FillLength(msgLen: nat, size: int, budget: int, i: int, fragSize: int): int
  {
    if i + fragSize > msgLen then size - budget + (i + fragSize - msgLen) else size - budget
  }

  /** Frame n's slice has a non-negative length and starts within the message. */
  predicate WellFormedSlice(msgLen: nat, base: nat, budget: int, total: nat, n: nat)
  {
    0 <= Cursor(budget, base, total, n) <= msgLen && FragSize(budget, base, n, total) >= 0
  }

  /** No frame has a negative payload length. */
  predicate SlicesNonNegative(base: nat, budget: int, total: nat)
  {
    forall n: nat :: n < total ==> FragSize(budget, base, n, total) >= 0
  }

  /** Frame n of `total` under a per-frame budget, as the generator yields it.
      When the budget is within the cap and the slice is well formed, the frame
      prints at exactly the cap; a slice that runs past the end of the message
      takes what is left and carries its shortfall as extra fill. */
  function FrameAt(msg: string, size: int, mid: MsgId, base: nat, budget: int, total: nat, n: nat): (f: Frame)
    ensures f.op == "fragment" && f.id == mid && f.num == n && f.total == total
    ensures forall j :: 0 <= j < |f.fill| ==> f.fill[j] == '0'
    ensures budget <= size && WellFormedSlice(|msg|, base, budget, total, n) ==>
              FrameLen(base, f) == size
    ensures budget <= size && WellFormedSlice(|msg|, base, budget, total, n) &&
            Cursor(budget, base, total, n) + FragSize(budget, base, n, total) > |msg| ==>
              |f.data| == |msg| - Cursor(budget, base, total, n) &&
              |f.fill| == size - budget + (Cursor(budget, base, total, n) + FragSize(budget, base, n, total) - |msg|)
    ensures budget <= size && WellFormedSlice(|msg|, base, budget, total, n) &&
            Cursor(budget, base, total, n) + FragSize(budget, base, n, total) <= |msg| ==>
              |f.data| == FragSize(budget, base, n, total) && |f.fill| == size - budget
  {
    var i := Cursor(budget, base, total, n);
    var fragSize := FragSize(budget, base, n, total);
    CreateFragment(Payload(msg, budget, base, total, n), n, total, mid,
                   Zeros(FillLength(|msg|, size, budget, i, fragSize)))
  }

  /** The slice frame n carries: from the cursor, fragSize characters, cut at the end of the message. */
  function Payload(msg: string, budget: int, base: nat, total: nat, n: nat): string
  {
    var i := Cursor(budget, base, total, n);
    PySlice(msg, i, Min(i + FragSize(budget, base, n, total), |msg|))
  }

  /** The first n frames of `total`, in the order the generator yields them. */
  function FramesUpTo(msg: string, size: int, mid: MsgId, base: nat, budget: int, total: nat, n: nat): (fs: seq<Frame>)
    ensures |fs| == n
  {
    if n == 0 then [] else FramesUpTo(msg, size, mid, base, budget, total, n - 1) + [FrameAt(msg, size, mid, base, budget, total, n - 1)]
  }

  /** One generator step: from the running cursor and payload length, frame n
      extends the first n frames. */
  lemma GeneratorStep(msg: string, size: int, mid: MsgId, base: nat, budget: int, total: nat, n: nat,
                      i: int, fragSize: int)
    requires i == Cursor(budget, base, total, n) && fragSize == FragSize(budget, base, n, total)
    ensures FramesUpTo(msg, size, mid, base, budget, total, n + 1)
         == FramesUpTo(msg, size, mid, base, budget, total, n) +
            [CreateFragment(PySlice(msg, i, Min(i + fragSize, |msg|)), n, total, mid,
                            Zeros(if i + fragSize > |msg| then size - budget + (i + fragSize - |msg|) else size - budget))]
  {
  }

  /** Entry k of FramesUpTo is frame k. */
  lemma {:induction false} FramesUpToAt(msg: string, size: int, mid: MsgId, base: nat, budget: int, total: nat, n: nat)
    ensures forall k: nat :: k < n ==>
              FramesUpTo(msg, size, mid, base, budget, total, n)[k] == FrameAt(msg, size, mid, base, budget, total, k)
  {
    if n > 0 {
      FramesUpToAt(msg, size, mid, base, budget, total, n - 1);
    }
  }

  /** The payloads of a frame sequence, concatenated in order. */
  function JoinData(frames: seq<Frame>): string
  {
    if |frames| == 0 then [] else JoinData(frames[..|frames| - 1]) + frames[|frames| - 1].data
  }

  /** The cursor after n frames is n budgets less the n headers. */
  lemma {:induction false} CursorClosedForm(budget: int, base: nat, total: nat, n: nat)
    ensures Cursor(budget, base, total, n) == n * budget - HeaderSum(base, n, total)
  {
    if n > 0 {
      CursorClosedForm(budget, base, total, n - 1);
      MulSucc(n - 1, budget);
    }
  }

  /** The planned payload lengths add up to more than the message: the cursor
      ends past its last character. */
  lemma CursorPassesEnd(msgLen: nat, base: nat, total: nat)
    requires total >= 1
    ensures Cursor(Budget(msgLen, base, total), base, total, total) > msgLen
  {
    var charged := msgLen + HeaderSum(base, total, total);
    CursorClosedForm(Budget(msgLen, base, total), base, total, total);
    MulDivExceeds(charged, total);
  }

  /** A slice taken at a cursor within or past the message continues the prefix before it. */
  lemma SliceContinues(msg: string, i: int, fragSize: int)
    requires 0 <= i && fragSize >= 0
    ensures msg[..Min(i, |msg|)] + PySlice(msg, i, Min(i + fragSize, |msg|)) == msg[..Min(i + fragSize, |msg|)]
  {
    if i < |msg| {
      var hi := Min(i + fragSize, |msg|);
      assert msg[..i] + msg[i..hi] == msg[..hi];
    }
  }

  /** With non-negative payload lengths, the first k frames' data is exactly the
      message up to the cursor after k frames. */
  lemma {:induction false} JoinPrefix(msg: string, base: nat, budget: int, frames: seq<Frame>, k: nat)
    requires k <= |frames|
    requires forall n: nat :: n < |frames| ==> frames[n].data == Payload(msg, budget, base, |frames|, n)
    requires forall n: nat :: n < k ==> FragSize(budget, base, n, |frames|) >= 0
    ensures Cursor(budget, base, |frames|, k) >= 0
    ensures JoinData(frames[..k]) == msg[..Min(Cursor(budget, base, |frames|, k), |msg|)]
  {
    if k > 0 {
      var total := |frames|;
      JoinPrefix(msg, base, budget, frames, k - 1);
      assert frames[..k][..k - 1] == frames[..k - 1];
      assert frames[..k][k - 1] == frames[k - 1];
      SliceContinues(msg, Cursor(budget, base, total, k - 1), FragSize(budget, base, k - 1, total));
    }
  }

  /** Concatenating the data of all frames, in `num` order, gives back the
      serialized message, provided no payload length is negative and the
      payload lengths together reach the end of the message. */
  lemma Reassembles(msg: string, size: int, mid: MsgId, base: nat, budget: int, frames: seq<Frame>)
    requires forall n: nat :: n < |frames| ==> frames[n] == FrameAt(msg, size, mid, base, budget, |frames|, n)
    requires SlicesNonNegative(base, budget, |frames|)
    requires Cursor(budget, base, |frames|, |frames|) >= |msg|
    ensures JoinData(frames) == msg
  {
    forall n: nat | n < |frames|
      ensures frames[n].data == Payload(msg, budget, base, |frames|, n)
    {
      assert frames[n] == FrameAt(msg, size, mid, base, budget, |frames|, n);
    }
    JoinPrefix(msg, base, budget, frames, |frames|);
    assert frames[..|frames|] == frames;
  }

  /** What every frame of a generated sequence satisfies, read off FrameAt. */
  lemma FramesShape(msg: string, size: int, mid: MsgId, base: nat, budget: int, frames: seq<Frame>)
    requires forall n: nat :: n < |frames| ==> frames[n] == FrameAt(msg, size, mid, base, budget, |frames|, n)
    requires budget <= size
    ensures forall n: nat :: n < |frames| ==>
              frames[n].op == "fragment" && frames[n].id == mid &&
              frames[n].num == n && frames[n].total == |frames|
    ensures forall n: nat :: n < |frames| ==> forall j :: 0 <= j < |frames[n].fill| ==> frames[n].fill[j] == '0'
    ensures forall n: nat :: n < |frames| && WellFormedSlice(|msg|, base, budget, |frames|, n) ==>
              FrameLen(base, frames[n]) == size
  {
    forall n: nat | n < |frames|
      ensures frames[n].op == "fragment" && frames[n].id == mid &&
              frames[n].num == n && frames[n].total == |frames|
      ensures forall j :: 0 <= j < |frames[n].fill| ==> frames[n].fill[j] == '0'
      ensures WellFormedSlice(|msg|, base, budget, |frames|, n) ==> FrameLen(base, frames[n]) == size
    {
      var f := FrameAt(msg, size, mid, base, budget, |frames|, n);
      assert frames[n] == f;
    }
  }

  /** The generator's slicing loop for a planned budget and count: a cursor
      walks the message, each frame takes the next payload, and the fill makes
      up the difference to the cap. */
  method SliceFrames(msg: string, size: int, mid: MsgId, base: nat, budget: int, total: nat)
    returns (frames: seq<Frame>)
    ensures |frames| == total
    ensures forall n: nat :: n < total ==> frames[n] == FrameAt(msg, size, mid, base, budget, total, n)
  {
    frames := [];
    var i := 0;
    var fragmentSize := budget - HeaderLen(base, 0, total);
    for n := 0 to total
      invariant |frames| == n
      invariant i == Cursor(budget, base, total, n)
      invariant fragmentSize == FragSize(budget, base, n, total)
      invariant frames == FramesUpTo(msg, size, mid, base, budget, total, n)
    {
      var fragment := PySlice(msg, i, Min(i + fragmentSize, |msg|));
      var fillLength := if i + fragmentSize > |msg| then size - budget + (i + fragmentSize - |msg|)
                        else size - budget;
      GeneratorStep(msg, size, mid, base, budget, total, n, i, fragmentSize);
      frames := frames + [CreateFragment(fragment, n, total, mid, Zeros(fillLength))];
      i := i + fragmentSize;
      fragmentSize := budget - HeaderLen(base, n + 1, total);
    }
    FramesUpToAt(msg, size, mid, base, budget, total, total);
  }

  /** The frame generator, run to exhaustion: plan the count and budget, then
      slice the message frame by frame. */
  method FragmentGenerator(msg: string, size: int, mid: MsgId, base: nat) returns (frames: seq<Frame>)
    requires Halts(|msg|, size, base)
    ensures IsPlanTotal(|msg|, size, base, |frames|)
    ensures forall n: nat :: n < |frames| ==>
              frames[n] == FrameAt(msg, size, mid, base, Budget(|msg|, base, |frames|), |frames|, n)
    ensures forall n: nat :: n < |frames| ==>
              frames[n].op == "fragment" && frames[n].id == mid &&
              frames[n].num == n && frames[n].total == |frames|
    ensures forall n: nat :: n < |frames| ==> forall j :: 0 <= j < |frames[n].fill| ==> frames[n].fill[j] == '0'
    ensures forall n: nat :: n < |frames| && WellFormedSlice(|msg|, base, Budget(|msg|, base, |frames|), |frames|, n) ==>
              FrameLen(base, frames[n]) == size
    ensures SlicesNonNegative(base, Budget(|msg|, base, |frames|), |frames|) ==> JoinData(frames) == msg
  {
    var msgLength, total := DetermineNFragments(|msg|, size, base);
    frames := SliceFrames(msg, size, mid, base, msgLength, total);
    FramesShape(msg, size, mid, base, msgLength, frames);
    if SlicesNonNegative(base, msgLength, total) {
      CursorPassesEnd(|msg|, base, total);
      Reassembles(msg, size, mid, base, msgLength, frames);
    }
  }
}
