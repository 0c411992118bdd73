/** Optional values: a caller-supplied identifier that may be absent, and a
    serializer that may fail. */
module Options {
  datatype Option<T> = None | Some(value: T)
}

/** The fragmentation capability's entry point: pick the shared identifier,
    serialize, and either give up, pass the message through whole, or hand back
    a frame generator. Each capability instance owns its identifier counter. */
module Fragmentation {
  import opened Options
  import opened Frames

  /** Per-instance state: the next auto-assigned identifier. */
  datatype Fragmenter = Fragmenter(seed: nat)

  /** A freshly constructed capability starts counting at zero. */
  const Initial: Fragmenter := Fragmenter(0)

  /** What `fragment` returns: nothing (the serializer failed), the original
      message (it fits as is), or the lazy frame generator, captured with the
      serialized text, the cap and the identifier it will slice with. With a
      cap of zero the part-count estimate divides by zero and the call raises
      instead of returning. */
  datatype Outcome<M> = NoFrames | Whole(message: M) | Generator(serialized: string, size: int, mid: MsgId)
                      | ZeroDivision

  /** One call: its outcome, the identifier it used, and the instance state after it. */
  datatype Call<M> = Call(outcome: Outcome<M>, id: MsgId, next: Fragmenter)

  /** The identifier a call uses: the caller's when given, otherwise the next
      number from the counter, which then moves on by one. */
  function AssignId(fr: Fragmenter, mid: Option<MsgId>): (r: (MsgId, Fragmenter))
    ensures mid.None? ==> r.0 == IntId(fr.seed) && r.1.seed == fr.seed + 1
    ensures mid.Some? ==> r.0 == mid.value && r.1 == fr
  {
    match mid
    case None => (IntId(fr.seed), Fragmenter(fr.seed + 1))
    case Some(given) => (given, fr)
  }

  /** `fragment(message, size, mid)`. The serializer is a parameter; it sees the
      message together with the identifier chosen for it. The identifier, and
      with it the counter, is settled before any outcome, the raising one included. */
  function Fragment<M>(fr: Fragmenter, message: M, size: int, mid: Option<MsgId>,
                       serialize: (M, MsgId) -> Option<string>): (c: Call<M>)
    ensures mid.None? ==> c.id == IntId(fr.seed) && c.next.seed == fr.seed + 1
    ensures mid.Some? ==> c.id == mid.value && c.next == fr
    ensures c.outcome.NoFrames? <==> serialize(message, c.id).None?
    ensures c.outcome.Whole? <==> serialize(message, c.id).Some? && |serialize(message, c.id).value| <= size
    ensures c.outcome.Whole? ==> c.outcome.message == message
    ensures c.outcome.ZeroDivision? <==>
              serialize(message, c.id).Some? && |serialize(message, c.id).value| > size && size == 0
    ensures c.outcome.Generator? <==>
              serialize(message, c.id).Some? && |serialize(message, c.id).value| > size && size != 0
    ensures c.outcome.Generator? ==>
              c.outcome.serialized == serialize(message, c.id).value &&
              c.outcome.size == size && c.outcome.mid == c.id
  {
    var (id, next) := AssignId(fr, mid);
    var serialized := serialize(message, id);
    if serialized.None? then Call(NoFrames, id, next)
    else if |serialized.value| <= size then Call(Whole(message), id, next)
    else if size == 0 then Call(ZeroDivision, id, next)
    else Call(Generator(serialized.value, size, id), id, next)
  }

  /** One request to `fragment`: the message, the cap and the optional identifier. */
  datatype Request<M> = Request(message: M, size: int, mid: Option<MsgId>)

  /** A run of `fragment` calls on one instance, each starting from the state the
      previous one left. */
  function Run<M>(fr: Fragmenter, reqs: seq<Request<M>>, serialize: (M, MsgId) -> Option<string>): (calls: seq<Call<M>>)
    ensures |calls| == |reqs|
    decreases |reqs|
  {
    if |reqs| == 0 then []
    else
      var c := Fragment(fr, reqs[0].message, reqs[0].size, reqs[0].mid, serialize);
      [c] + Run(c.next, reqs[1..], serialize)
  }

  /** How many requests leave the identifier to the counter. */
  function AutoCount<M>(reqs: seq<Request<M>>): nat
  {
    if |reqs| == 0 then 0 else (if reqs[0].mid.None? then 1 else 0) + AutoCount(reqs[1..])
  }

  lemma {:induction false} AutoCountSplit<M>(reqs: seq<Request<M>>, i: nat)
    requires i <= |reqs|
    ensures AutoCount(reqs) == AutoCount(reqs[..i]) + AutoCount(reqs[i..])
  {
    if i > 0 {
      AutoCountSplit(reqs[1..], i - 1);
      assert reqs[..i][1..] == reqs[1..][..i - 1];
      assert reqs[i..] == reqs[1..][i - 1..];
    }
  }

  /** The k-th call of a run, when it has no caller-supplied identifier, gets the
      starting seed plus the number of earlier calls that had none either. */
  lemma {:induction false} AutoIdIsCounter<M>(fr: Fragmenter, reqs: seq<Request<M>>,
                                              serialize: (M, MsgId) -> Option<string>, k: nat)
    requires k < |reqs| && reqs[k].mid.None?
    ensures Run(fr, reqs, serialize)[k].id == IntId(fr.seed + AutoCount(reqs[..k]))
    decreases k
  {
    if k > 0 {
      var c := Fragment(fr, reqs[0].message, reqs[0].size, reqs[0].mid, serialize);
      AutoIdIsCounter(c.next, reqs[1..], serialize, k - 1);
      assert reqs[..k][1..] == reqs[1..][..k - 1];
    }
  }

  /** On a freshly constructed instance the automatic identifiers are 0, 1, 2, ...
      in call order: the k-th call without a caller identifier gets the number of
      earlier calls without one. */
  lemma {:induction false} FreshInstanceIds<M>(reqs: seq<Request<M>>, serialize: (M, MsgId) -> Option<string>, k: nat)
    requires k < |reqs| && reqs[k].mid.None?
    ensures Run(Initial, reqs, serialize)[k].id == IntId(AutoCount(reqs[..k]))
  {
    AutoIdIsCounter(Initial, reqs, serialize, k);
  }

  /** Two calls of one run that both leave the identifier to the counter get
      different identifiers. */
  lemma AutoIdsDistinct<M>(fr: Fragmenter, reqs: seq<Request<M>>,
                           serialize: (M, MsgId) -> Option<string>, i: nat, j: nat)
    requires i < j < |reqs|
    requires reqs[i].mid.None? && reqs[j].mid.None?
    ensures Run(fr, reqs, serialize)[i].id != Run(fr, reqs, serialize)[j].id
  {
    AutoIdIsCounter(fr, reqs, serialize, i);
    AutoIdIsCounter(fr, reqs, serialize, j);
    AutoCountSplit(reqs[..j], i);
    assert reqs[..j][..i] == reqs[..i];
    assert reqs[..j][i..][0] == reqs[i];
  }

  /** A call with a caller-supplied identifier uses exactly that identifier. */
  lemma {:induction false} GivenIdUsed<M>(fr: Fragmenter, reqs: seq<Request<M>>,
                                          serialize: (M, MsgId) -> Option<string>, k: nat)
    requires k < |reqs| && reqs[k].mid.Some?
    ensures Run(fr, reqs, serialize)[k].id == reqs[k].mid.value
    decreases k
  {
    if k > 0 {
      var c := Fragment(fr, reqs[0].message, reqs[0].size, reqs[0].mid, serialize);
      GivenIdUsed(c.next, reqs[1..], serialize, k - 1);
    }
  }
}
