/**
 * Result values, standing for Rust's `Result`, and
 * `Collect`: running fallible steps in order with `?`, so that the first
 * error ends the run.
 */
module Results {

  datatype Result<+T, +E> = Ok(value: T) | Err(error: E)

  /** Running steps in order until one fails: all their values, or the first failure. */
  function Collect<T, E>(outcomes: seq<Result<T, E>>): Result<seq<T>, E>
    decreases |outcomes|
  {
    if outcomes == [] then Ok([])
    else match outcomes[0]
      case Err(e) => Err(e)
      case Ok(v) =>
        match Collect(outcomes[1..])
        case Err(e) => Err(e)
        case Ok(vs) => Ok([v] + vs)
  }

  /** How many steps run: all of them, or those up to and including the first that fails. */
  function StepsRun<T, E>(outcomes: seq<Result<T, E>>): nat
    decreases |outcomes|
  {
    if outcomes == [] then 0
    else if outcomes[0].Err? then 1
    else 1 + StepsRun(outcomes[1..])
  }

  /** `Collect` succeeds exactly when every step does, and then lists their values in order. */
  lemma {:induction false} CollectOk<T, E>(outcomes: seq<Result<T, E>>, values: seq<T>)
    ensures Collect(outcomes) == Ok(values)
        <==> |values| == |outcomes| && forall k :: 0 <= k < |outcomes| ==> outcomes[k] == Ok(values[k])
    decreases |outcomes|
  {
    if outcomes != [] && values != [] {
      CollectOk(outcomes[1..], values[1..]);
      assert [values[0]] + values[1..] == values;
      if |values| == |outcomes| && forall k :: 0 <= k < |outcomes| ==> outcomes[k] == Ok(values[k]) {
        assert forall k :: 0 <= k < |outcomes| - 1 ==> outcomes[1..][k] == Ok(values[1..][k]);
      }
    } else if outcomes != [] && outcomes[0].Ok? {
      CollectOkLength(outcomes[1..]);
    }
  }

  /** A successful `Collect` has one value per step. */
  lemma {:induction false} CollectOkLength<T, E>(outcomes: seq<Result<T, E>>)
    ensures Collect(outcomes).Ok? ==> |Collect(outcomes).value| == |outcomes|
    decreases |outcomes|
  {
    if outcomes != [] {
      CollectOkLength(outcomes[1..]);
    }
  }

  /**
   * Every step runs when all succeed; otherwise the last step run is the
   * first that fails, its error is the outcome, and every step before it
   * succeeded.
   */
  lemma {:induction false} StepsRunSpec<T, E>(outcomes: seq<Result<T, E>>)
    ensures StepsRun(outcomes) <= |outcomes|
    ensures Collect(outcomes).Ok? <==> StepsRun(outcomes) == |outcomes| && forall k :: 0 <= k < |outcomes| ==> outcomes[k].Ok?
    ensures Collect(outcomes).Err? ==>
      && 0 < StepsRun(outcomes)
      && outcomes[StepsRun(outcomes) - 1] == Err(Collect(outcomes).error)
      && forall k :: 0 <= k < StepsRun(outcomes) - 1 ==> outcomes[k].Ok?
    decreases |outcomes|
  {
    if outcomes != [] && outcomes[0].Ok? {
      StepsRunSpec(outcomes[1..]);
      assert forall k :: 1 <= k < |outcomes| ==> outcomes[k] == outcomes[1..][k - 1];
    }
  }

  /** One more step: it runs only when all before it succeeded. */
  lemma {:induction false} CollectSnoc<T, E>(outcomes: seq<Result<T, E>>, last: Result<T, E>)
    ensures Collect(outcomes + [last]) ==
      match Collect(outcomes)
      case Err(e) => Err(e)
      case Ok(vs) => (match last case Err(e) => Err(e) case Ok(v) => Ok(vs + [v]))
    decreases |outcomes|
  {
    if outcomes == [] {
      assert outcomes + [last] == [last] && [last][1..] == [];
      if last.Ok? {
        assert [last.value] + [] == [] + [last.value];
      }
    } else {
      assert (outcomes + [last])[1..] == outcomes[1..] + [last];
      CollectSnoc(outcomes[1..], last);
      if outcomes[0].Ok? && Collect(outcomes[1..]).Ok? && last.Ok? {
        var v, vs := outcomes[0].value, Collect(outcomes[1..]).value;
        assert [v] + (vs + [last.value]) == ([v] + vs) + [last.value];
      }
    }
  }

  /**
   * When the steps before `i` all succeed and step `i` fails, the outcome is
   * its failure and exactly `i + 1` steps run.
   */
  lemma {:induction false} CollectStopsAt<T, E>(outcomes: seq<Result<T, E>>, i: nat)
    requires i < |outcomes|
    requires Collect(outcomes[..i]).Ok?
    requires outcomes[i].Err?
    ensures Collect(outcomes) == Err(outcomes[i].error)
    ensures StepsRun(outcomes) == i + 1
    decreases i
  {
    if i > 0 {
      assert outcomes[..i][0] == outcomes[0];
      assert outcomes[..i][1..] == outcomes[1..][..i - 1];
      CollectStopsAt(outcomes[1..], i - 1);
    }
  }

  /**
   * One more step of a loop with `?` whose earlier steps all succeeded: when
   * it succeeds its value is appended; when it fails, the loop returns its
   * error after `i + 1` steps.
   */
  lemma CollectStep<T, E>(outcomes: seq<Result<T, E>>, i: nat, values: seq<T>)
    requires i < |outcomes|
    requires Collect(outcomes[..i]) == Ok(values)
    ensures outcomes[i].Ok? ==> Collect(outcomes[..i + 1]) == Ok(values + [outcomes[i].value])
    ensures outcomes[i].Err? ==> Collect(outcomes) == Err(outcomes[i].error) && StepsRun(outcomes) == i + 1
  {
    if outcomes[i].Ok? {
      PrefixSnoc(outcomes, i);
      CollectSnoc(outcomes[..i], outcomes[i]);
    } else {
      CollectStopsAt(outcomes, i);
    }
  }

  /** A loop with `?` whose every step succeeded returns all their values, having run every step. */
  lemma CollectAll<T, E>(outcomes: seq<Result<T, E>>, values: seq<T>)
    requires Collect(outcomes[..|outcomes|]) == Ok(values)
    ensures Collect(outcomes) == Ok(values) && StepsRun(outcomes) == |outcomes|
  {
    PrefixWhole(outcomes);
    StepsRunSpec(outcomes);
  }

  lemma PrefixSnoc<T>(s: seq<T>, i: nat)
    requires i < |s|
    ensures s[..i + 1] == s[..i] + [s[i]]
  {
  }

  lemma PrefixWhole<T>(s: seq<T>)
    ensures s[..|s|] == s
  {
  }
}
