/** The fragment planner: how many frames a serialized message needs, and the
    per-frame length budget, when every frame header is charged against the same
    size cap as the payload and the header grows with the digits of its own
    sequence number and of the frame count.

    Header lengths are abstract: `base` is the printed length of a frame record
    with empty data and fill, not counting the characters of its `num` and
    `total` fields. The header the source measures with num = total = 0 is
    therefore base + 2. */
module Planner {
  import opened Decimal

  /** Printed header length of frame number `num` of `total`. */
  function HeaderLen(base: nat, num: nat, total: nat): nat
  {
    base + Digits(num) + Digits(total)
  }

  /** Sum of HeaderLen(base, n, total) for n in [0, count). */
  function HeaderSum(base: nat, count: nat, total: nat): nat
  {
    if count == 0 then 0 else HeaderSum(base, count - 1, total) + HeaderLen(base, count - 1, total)
  }

  /** Number of digit boundaries met going from 1 up to t: the k in [1, t) whose successor has more digits. */
  function Crossings(t: nat): nat
  {
    if t <= 1 then 0 else Crossings(t - 1) + (if Digits(t) > Digits(t - 1) then 1 else 0)
  }

  /** The per-frame budget (header plus payload) for `total` frames: the whole
      message plus every frame's header, shared evenly, plus one. */
  function Budget(msgLen: nat, base: nat, total: nat): int
    requires total >= 1
  {
    Share(msgLen + HeaderSum(base, total, total), total)
  }

  /** The planner's per-frame share of an accumulated length: floor division plus one. */
  function Share(len: nat, total: nat): int
    requires total >= 1
  {
    len / total + 1
  }

  /** `total` frames are enough: their budget stays within the size cap. */
  predicate Fits(msgLen: nat, size: int, base: nat, total: nat)
    requires total >= 1
  {
    Budget(msgLen, base, total) <= size
  }

  /** The planner's search stops: some frame count fits. */
  ghost predicate Halts(msgLen: nat, size: int, base: nat)
  {
    exists t: nat :: t >= 1 && Fits(msgLen, size, base, t)
  }

  /** `total` is what the planner must answer: the least frame count that fits. */
  predicate IsPlanTotal(msgLen: nat, size: int, base: nat, total: nat)
  {
    total >= 1 && Fits(msgLen, size, base, total) &&
    forall t: nat :: 1 <= t < total ==> !Fits(msgLen, size, base, t)
  }

  /** The planner's loop variables: accumulated length, trial count, current header size. */
  datatype PlanState = PlanState(msgLen: nat, total: nat, headerSize: nat)

  /** One pass of the planner loop: charge one more header, try one more frame,
      and at a digit boundary pay for the extra digit of every frame's `total`
      field and widen the header by two characters. */
  function Advance(s: PlanState): PlanState
  {
    var charged := s.msgLen + s.headerSize;
    var next := s.total + 1;
    if Digits(next) > Digits(s.total) then PlanState(charged + next, next, s.headerSize + 2)
    else PlanState(charged, next, s.headerSize)
  }

  /** The loop variables after k passes, starting from one frame and the zero-digit header. */
  function Trial(msgLen: nat, base: nat, k: nat): PlanState
  {
    if k == 0 then PlanState(msgLen + base + 2, 1, base + 2)
    else Advance(Trial(msgLen, base, k - 1))
  }

  /** Raising the frame count from t to t + 1 leaves each header as it was,
      unless t + 1 has one more digit, in which case every one of the `count`
      headers grows by one character. */
  lemma {:induction false} HeaderSumRetotal(base: nat, count: nat, t: nat)
    ensures HeaderSum(base, count, t + 1) == HeaderSum(base, count, t) + (if Digits(t + 1) > Digits(t) then count else 0)
  {
    if count > 0 {
      HeaderSumRetotal(base, count - 1, t);
      DigitsStep(t);
    }
  }

  /** The accounting of one planner pass: adding frame t + 1 costs one header of
      the current width, and at a digit boundary additionally one character for
      each of the t + 1 frames' `total` fields. */
  lemma StepAccounting(base: nat, t: nat)
    requires t >= 1
    ensures HeaderSum(base, t + 1, t + 1)
         == HeaderSum(base, t, t) + base + 2 * Digits(t) + (if Digits(t + 1) > Digits(t) then t + 1 else 0)
  {
    HeaderSumRetotal(base, t, t);
    DigitsStep(t);
    assert HeaderSum(base, t + 1, t + 1) == HeaderSum(base, t, t + 1) + HeaderLen(base, t, t + 1);
  }

  /** Each boundary crossed adds one digit. */
  lemma {:induction false} CrossingsCountDigits(t: nat)
    requires t >= 1
    ensures Crossings(t) == Digits(t) - 1
  {
    if t > 1 {
      CrossingsCountDigits(t - 1);
      DigitsStep(t - 1);
    }
  }

  /** After k passes the planner has tried k + 1 frames. */
  lemma {:induction false} TrialTotal(msgLen: nat, base: nat, k: nat)
    ensures Trial(msgLen, base, k).total == k + 1
  {
    if k > 0 {
      TrialTotal(msgLen, base, k - 1);
    }
  }

  /** After k passes the header is as wide as the digits of k + 1 make it. */
  lemma {:induction false} TrialHeader(msgLen: nat, base: nat, k: nat)
    ensures Trial(msgLen, base, k).headerSize == base + 2 * Digits(k + 1)
  {
    if k > 0 {
      TrialHeader(msgLen, base, k - 1);
      TrialTotal(msgLen, base, k - 1);
      DigitsStep(k);
    }
  }

  /** After k passes the planner has charged the message plus the headers of all k + 1 frames. */
  lemma {:induction false} TrialLength(msgLen: nat, base: nat, k: nat)
    ensures Trial(msgLen, base, k).msgLen == msgLen + HeaderSum(base, k + 1, k + 1)
  {
    if k > 0 {
      TrialLength(msgLen, base, k - 1);
      TrialTotal(msgLen, base, k - 1);
      TrialHeader(msgLen, base, k - 1);
      StepAccounting(base, k);
    }
  }

  /** After k passes the planner has tried k + 1 frames, has charged exactly the
      message plus the headers of all k + 1 frames, and its header has grown by
      two characters per digit boundary crossed. */
  lemma TrialAccounting(msgLen: nat, base: nat, k: nat)
    ensures Trial(msgLen, base, k).total == k + 1
    ensures Trial(msgLen, base, k).msgLen == msgLen + HeaderSum(base, k + 1, k + 1)
    ensures Trial(msgLen, base, k).headerSize == base + 2 + 2 * Crossings(k + 1)
    ensures Trial(msgLen, base, k).headerSize == base + 2 * Digits(k + 1)
  {
    TrialTotal(msgLen, base, k);
    TrialLength(msgLen, base, k);
    TrialHeader(msgLen, base, k);
    CrossingsCountDigits(k + 1);
  }

  /** One pass of the loop, in isolation: when the guard holds at trial k the
      count k + 1 does not fit, and the next state is trial k + 1. */
  lemma PassAccounting(msgLen: nat, size: int, base: nat, k: nat)
    requires Share(Trial(msgLen, base, k).msgLen, Trial(msgLen, base, k).total) > size
    ensures !Fits(msgLen, size, base, k + 1)
    ensures Trial(msgLen, base, k + 1).total == k + 2
  {
    TrialTotal(msgLen, base, k);
    TrialLength(msgLen, base, k);
    TrialTotal(msgLen, base, k + 1);
  }

  /** Exit of the loop, in isolation: when the guard fails at trial k the count
      k + 1 fits and the budget is trial k's share. */
  lemma ExitAccounting(msgLen: nat, size: int, base: nat, k: nat)
    requires Share(Trial(msgLen, base, k).msgLen, Trial(msgLen, base, k).total) <= size
    ensures Fits(msgLen, size, base, k + 1)
    ensures Budget(msgLen, base, k + 1) == Share(Trial(msgLen, base, k).msgLen, k + 1)
  {
    TrialTotal(msgLen, base, k);
    TrialLength(msgLen, base, k);
  }

  /** The planner loop (one pass is Advance). Its guard reads the last recorded
      length, which is always the current accumulated length; on exit the budget
      is that length shared among `total` frames, plus one. */
  method DetermineNFragments(msgLen: nat, size: int, base: nat) returns (budget: int, total: nat)
    requires Halts(msgLen, size, base)
    ensures IsPlanTotal(msgLen, size, base, total)
    ensures budget == Budget(msgLen, base, total)
    ensures budget <= size
  {
    ghost var k: nat := 0;
    var s := Trial(msgLen, base, 0);
    var history := [s.msgLen];
    ghost var w: nat :| w >= 1 && Fits(msgLen, size, base, w);
    while Share(history[|history| - 1], s.total) > size
      invariant s == Trial(msgLen, base, k) && s.total == k + 1 <= w
      invariant |history| == k + 1
      invariant history[k] == s.msgLen
      invariant forall t: nat :: 1 <= t <= k ==> !Fits(msgLen, size, base, t)
      decreases w - k
    {
      PassAccounting(msgLen, size, base, k);
      s := Advance(s);
      k := k + 1;
      history := history + [s.msgLen];
    }
    ExitAccounting(msgLen, size, base, k);
    total := s.total;
    budget := Share(s.msgLen, total);
  }

  /** Every header is at least base + 2 long. */
  lemma {:induction false} HeaderSumAtLeast(base: nat, count: nat, total: nat)
    ensures HeaderSum(base, count, total) >= count * (base + 2)
  {
    if count > 0 {
      HeaderSumAtLeast(base, count - 1, total);
      MulSucc(count - 1, base + 2);
    }
  }

  /** When each of the first `count` headers is at most w long, they add up to at most count * w. */
  lemma {:induction false} HeaderSumAtMost(base: nat, count: nat, total: nat, w: nat)
    requires forall n: nat :: n < count ==> HeaderLen(base, n, total) <= w
    ensures HeaderSum(base, count, total) <= count * w
  {
    if count > 0 {
      HeaderSumAtMost(base, count - 1, total, w);
      MulSucc(count - 1, w);
    }
  }

  /** When the cap is no larger than the zero-digit header, no frame count fits,
      so the planner loop never ends (and its error branch is never reached). */
  lemma HeaderTooLargeNeverHalts(msgLen: nat, size: int, base: nat)
    requires size <= base + 2
    ensures forall t: nat :: t >= 1 ==> !Fits(msgLen, size, base, t)
    ensures !Halts(msgLen, size, base)
  {
    forall t: nat | t >= 1
      ensures !Fits(msgLen, size, base, t)
    {
      HeaderSumAtLeast(base, t, t);
      DivAtLeast(msgLen + HeaderSum(base, t, t), t, base + 2);
    }
  }

  /** With as many frames as characters, the budget is at most the widest header plus two. */
  lemma BudgetAtLength(msgLen: nat, base: nat)
    requires msgLen >= 1
    ensures Budget(msgLen, base, msgLen) <= base + 2 + 2 * Digits(msgLen)
  {
    forall n: nat | n < msgLen
      ensures HeaderLen(base, n, msgLen) <= base + 2 * Digits(msgLen)
    {
      DigitsMonotone(n, msgLen);
    }
    BudgetBelow(msgLen, msgLen, base, base + 2 * Digits(msgLen));
  }

  /** When the message is no longer than the frame count and every header of
      `total` frames is at most w long, the budget is at most w + 2. */
  lemma BudgetBelow(msgLen: nat, total: nat, base: nat, w: nat)
    requires 1 <= total && msgLen <= total
    requires forall n: nat :: n < total ==> HeaderLen(base, n, total) <= w
    ensures Budget(msgLen, base, total) <= w + 2
  {
    HeaderSumAtMost(base, total, total, w);
    ShareOfSum(msgLen, total, HeaderSum(base, total, total), w);
  }

  /** Sharing a + h among m, with a at most m and h at most m * w, gives at most w + 2. */
  lemma ShareOfSum(a: nat, m: nat, h: nat, w: nat)
    requires m >= 1 && a <= m && h <= m * w
    ensures Share(a + h, m) <= w + 2
  {
    MulSuccRight(m, w);
    DivAtMost(a + h, m, w + 1);
  }

  /** A sufficient condition for the planner to stop: a cap that leaves room for
      two extra header digits per digit of the message length. The planner then
      never asks for more frames than the message has characters. */
  lemma RoomyCapHalts(msgLen: nat, size: int, base: nat)
    requires msgLen >= 1
    requires size >= base + 2 + 2 * Digits(msgLen)
    ensures Fits(msgLen, size, base, msgLen)
    ensures Halts(msgLen, size, base)
    ensures forall t: nat :: IsPlanTotal(msgLen, size, base, t) ==> t <= msgLen
  {
    BudgetAtLength(msgLen, base);
    assert Fits(msgLen, size, base, msgLen);
    forall t: nat | IsPlanTotal(msgLen, size, base, t)
      ensures t <= msgLen
    {
    }
  }
}
