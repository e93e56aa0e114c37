/** `lazy(fn)` from `depth-flow/utils.ts`: a memoiser that evaluates `fn`
    on the first call and hands back the stored value afterwards. The state
    the closure keeps (`created`, `value`) is a `Memo`; what `fn` would do
    if it were called now is passed in as a `Result`, `Err` standing for a
    thrown error. */
module Lazy {
  import opened Wrappers

  datatype Memo<T> = NotCreated | Created(value: T)

  /** The state after one call, what the call returned or threw, and
      whether it evaluated `fn`. */
  datatype Call<T> = Call(memo: Memo<T>, result: Result<T>, evaluated: bool)

  /** One call of the memoised function. Before a value is stored, `fn` is
      evaluated: its value is stored and returned, or its error is passed on
      and nothing is stored. Once a value is stored it is returned and `fn`
      is not evaluated. */
  function Invoke<T>(memo: Memo<T>, fn: Result<T>): (c: Call<T>)
    ensures c.evaluated <==> memo.NotCreated?
    ensures memo.Created? ==> c.memo == memo && c.result == Ok(memo.value)
    ensures memo.NotCreated? ==> c.result == fn
    ensures memo.NotCreated? && fn.Err? ==> c.memo.NotCreated?
    ensures memo.NotCreated? && fn.Ok? ==> c.memo == Created(fn.value)
  {
    match memo
    case Created(v) => Call(memo, Ok(v), false)
    case NotCreated =>
      match fn
      case Ok(v) => Call(Created(v), Ok(v), true)
      case Err(e) => Call(NotCreated, Err(e), true)
  }

  /** The state after a sequence of calls; `outcomes[k]` is what `fn` would
      do at the `k`-th call. */
  function After<T>(memo: Memo<T>, outcomes: seq<Result<T>>): Memo<T>
    decreases |outcomes|
  {
    if |outcomes| == 0 then memo else After(Invoke(memo, outcomes[0]).memo, outcomes[1..])
  }

  /** The index of the first successful outcome, or `|outcomes|`. */
  function FirstOk<T>(outcomes: seq<Result<T>>): (i: nat)
    ensures i <= |outcomes|
    ensures forall j :: 0 <= j < i ==> outcomes[j].Err?
    ensures i < |outcomes| ==> outcomes[i].Ok?
  {
    if |outcomes| == 0 then 0
    else if outcomes[0].Ok? then 0
    else 1 + FirstOk(outcomes[1..])
  }

  lemma AfterSnoc<T>(memo: Memo<T>, outcomes: seq<Result<T>>, next: Result<T>)
    ensures After(memo, outcomes + [next]) == Invoke(After(memo, outcomes), next).memo
    decreases |outcomes|
  {
    if |outcomes| > 0 {
      assert (outcomes + [next])[1..] == outcomes[1..] + [next];
      AfterSnoc(Invoke(memo, outcomes[0]).memo, outcomes[1..], next);
    }
  }

  /** From a fresh memoiser, calls before the first success leave it empty,
      and every call from the first success on is in the created state and
      holds the value of that success. */
  lemma {:induction false} StateAfter<T>(outcomes: seq<Result<T>>, k: nat)
    requires k <= |outcomes|
    ensures var i := FirstOk(outcomes);
            && (k <= i ==> After(NotCreated, outcomes[..k]).NotCreated?)
            && (i < k ==> After(NotCreated, outcomes[..k]) == Created(outcomes[i].value))
  {
    if k > 0 {
      StateAfter(outcomes, k - 1);
      assert outcomes[..k] == outcomes[..k - 1] + [outcomes[k - 1]];
      AfterSnoc(NotCreated, outcomes[..k - 1], outcomes[k - 1]);
    }
  }

  /** The calls of a fresh memoiser: each call up to and including the first
      success evaluates `fn` and returns what it returns or throws; every
      later call returns the first success's value without evaluating `fn`. */
  lemma Trace<T>(outcomes: seq<Result<T>>, k: nat)
    requires k < |outcomes|
    ensures var i := FirstOk(outcomes);
            var c := Invoke(After(NotCreated, outcomes[..k]), outcomes[k]);
            && (k <= i ==> c.evaluated && c.result == outcomes[k])
            && (i < k ==> !c.evaluated && c.result == Ok(outcomes[i].value))
  {
    StateAfter(outcomes, k);
  }

  /** A stored value is never dropped: whatever `fn` would do, a created
      memoiser stays created with the same value. */
  lemma {:induction false} CreatedStays<T>(v: T, outcomes: seq<Result<T>>)
    ensures After(Created(v), outcomes) == Created(v)
    decreases |outcomes|
  {
    if |outcomes| > 0 {
      CreatedStays(v, outcomes[1..]);
    }
  }
}
