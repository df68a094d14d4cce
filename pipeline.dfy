/**
 * `process_target` and the loop of `main` over the configured targets: read
 * the Steam shortcut manifest, keep the shortcuts whose command line contains
 * the target, and create a link for each of them in order, stopping at the
 * first failure; over all targets, stop the run at the first target that fails.
 */
module Pipeline {
  import opened Results
  import opened Strings
  import opened Link

  /** The name of Steam's shortcut manifest inside the configuration directory. */
  const ShortcutsFile: string := "shortcuts.vdf"

  function ManifestPath(config: string): string {
    config + ShortcutsFile
  }

  /* ---------------------------------------------------------------------- */
  /* Matching                                                                */
  /* ---------------------------------------------------------------------- */

  /** The shortcuts whose command line contains the target, in manifest order. */
  function Matches(shortcuts: seq<Shortcut>, target: string): (r: seq<Shortcut>)
    ensures |r| <= |shortcuts|
    ensures forall k :: 0 <= k < |r| ==> Contains(r[k].exe, target)
    decreases |shortcuts|
  {
    if shortcuts == [] then []
    else if Contains(shortcuts[0].exe, target) then [shortcuts[0]] + Matches(shortcuts[1..], target)
    else Matches(shortcuts[1..], target)
  }

  /** The matches keep the manifest order: they are a subsequence of the shortcuts. */
  lemma {:induction false} MatchesInOrder(shortcuts: seq<Shortcut>, target: string)
    ensures IsSubsequence(Matches(shortcuts, target), shortcuts)
    decreases |shortcuts|
  {
    if shortcuts != [] {
      var rest := Matches(shortcuts[1..], target);
      MatchesInOrder(shortcuts[1..], target);
      if Contains(shortcuts[0].exe, target) {
        SubsequenceCons(shortcuts[0], rest, shortcuts[1..]);
        assert [shortcuts[0]] + shortcuts[1..] == shortcuts;
      } else {
        SubsequenceOfTail(rest, shortcuts);
      }
    }
  }

  /**
   * Each shortcut whose command line contains the target is kept as often as
   * it occurs in the manifest, and no other shortcut is kept.
   */
  lemma {:induction false} MatchesCounts(shortcuts: seq<Shortcut>, target: string)
    ensures forall sc :: multiset(Matches(shortcuts, target))[sc]
                         == if Contains(sc.exe, target) then multiset(shortcuts)[sc] else 0
    decreases |shortcuts|
  {
    if shortcuts != [] {
      MatchesCounts(shortcuts[1..], target);
      assert shortcuts == [shortcuts[0]] + shortcuts[1..];
    }
  }

  /** There is no match exactly when no command line contains the target. */
  lemma {:induction false} MatchesNone(shortcuts: seq<Shortcut>, target: string)
    ensures Matches(shortcuts, target) == [] <==> forall k :: 0 <= k < |shortcuts| ==> !Contains(shortcuts[k].exe, target)
    decreases |shortcuts|
  {
    if shortcuts != [] {
      MatchesNone(shortcuts[1..], target);
      assert forall k :: 1 <= k < |shortcuts| ==> shortcuts[k] == shortcuts[1..][k - 1];
    }
  }

  /** The empty target, which a trailing comma in the target list produces, matches every shortcut. */
  lemma {:induction false} EmptyTargetMatchesAll(shortcuts: seq<Shortcut>)
    ensures Matches(shortcuts, "") == shortcuts
    decreases |shortcuts|
  {
    if shortcuts != [] {
      assert StartsWith(shortcuts[0].exe, "");
      EmptyTargetMatchesAll(shortcuts[1..]);
      assert [shortcuts[0]] + shortcuts[1..] == shortcuts;
    }
  }

  /* ---------------------------------------------------------------------- */
  /* One target                                                              */
  /* ---------------------------------------------------------------------- */

  /** The outcomes of `create_link` for each of `entries`, in order. */
  function Outcomes(fs: FileSystem, target: string, config: string, dest: string, entries: seq<Shortcut>)
    : (os: seq<Result<LinkPlan, Failure>>)
    ensures |os| == |entries|
    decreases |entries|
  {
    if entries == [] then []
    else [CreateLink(fs, target, config, dest, entries[0])] + Outcomes(fs, target, config, dest, entries[1..])
  }

  /** Outcome `k` is that of `create_link` for entry `k`. */
  lemma {:induction false} OutcomesAt(fs: FileSystem, target: string, config: string, dest: string, entries: seq<Shortcut>, k: nat)
    requires k < |entries|
    ensures Outcomes(fs, target, config, dest, entries)[k] == CreateLink(fs, target, config, dest, entries[k])
    decreases k
  {
    if k > 0 {
      OutcomesAt(fs, target, config, dest, entries[1..], k - 1);
    }
  }

  /**
   * `process_target`: the manifest cannot be read or decoded, or no shortcut
   * matches ("Target does not exist."), or the outcome of creating the links
   * of the matches in order.
   */
  function TargetOutcome(fs: FileSystem, target: string, config: string, dest: string): Result<seq<LinkPlan>, Failure>
  {
    var path := ManifestPath(config);
    if path !in fs.manifests then Err(ManifestUnavailable(path))
    else
      var entries := Matches(fs.manifests[path], target);
      if entries == [] then Err(TargetDoesNotExist)
      else Collect(Outcomes(fs, target, config, dest, entries))
  }

  /** How many times `process_target` calls `create_link`. */
  function Invocations(fs: FileSystem, target: string, config: string, dest: string): nat
  {
    var path := ManifestPath(config);
    if path !in fs.manifests then 0
    else StepsRun(Outcomes(fs, target, config, dest, Matches(fs.manifests[path], target)))
  }

  /** `process_target` fails before creating any link when the manifest is unreadable or no shortcut matches. */
  lemma TargetOutcomeEarly(fs: FileSystem, target: string, config: string, dest: string)
    ensures ManifestPath(config) !in fs.manifests ==>
      TargetOutcome(fs, target, config, dest) == Err(ManifestUnavailable(ManifestPath(config)))
      && Invocations(fs, target, config, dest) == 0
    ensures ManifestPath(config) in fs.manifests && Matches(fs.manifests[ManifestPath(config)], target) == [] ==>
      TargetOutcome(fs, target, config, dest) == Err(TargetDoesNotExist)
      && Invocations(fs, target, config, dest) == 0
  {
  }

  /**
   * When some shortcut matches, `process_target` reports either the
   * descriptors of all the matches in order, each created by `create_link`,
   * or the failure of the first match whose link cannot be created, all the
   * matches before it having succeeded; `create_link` runs for the matches
   * up to that one.
   */
  lemma TargetOutcomeLinks(fs: FileSystem, target: string, config: string, dest: string)
    requires ManifestPath(config) in fs.manifests
    requires Matches(fs.manifests[ManifestPath(config)], target) != []
    ensures var entries := Matches(fs.manifests[ManifestPath(config)], target);
      var outs := Outcomes(fs, target, config, dest, entries);
      var r := TargetOutcome(fs, target, config, dest);
      var n := Invocations(fs, target, config, dest);
      && n <= |entries|
      && (r.Ok? ==> n == |entries| && |r.value| == |entries| && forall k :: 0 <= k < |entries| ==> outs[k] == Ok(r.value[k]))
      && (r.Err? ==> 0 < n && outs[n - 1] == Err(r.error) && forall k :: 0 <= k < n - 1 ==> outs[k].Ok?)
  {
    var outs := Outcomes(fs, target, config, dest, Matches(fs.manifests[ManifestPath(config)], target));
    StepsRunSpec(outs);
    if Collect(outs).Ok? {
      CollectOk(outs, Collect(outs).value);
    }
  }

  /**
   * `process_target` as the loop the tool runs: it reports `TargetOutcome`
   * after calling `create_link` `Invocations` times.
   */
  method ProcessTarget(fs: FileSystem, target: string, config: string, dest: string)
    returns (r: Result<seq<LinkPlan>, Failure>, invoked: nat)
    ensures r == TargetOutcome(fs, target, config, dest)
    ensures invoked == Invocations(fs, target, config, dest)
  {
    var path := ManifestPath(config);
    if path !in fs.manifests {
      return Err(ManifestUnavailable(path)), 0;
    }
    var entries := Matches(fs.manifests[path], target);
    if |entries| == 0 {
      return Err(TargetDoesNotExist), 0;
    }
    ghost var outs := Outcomes(fs, target, config, dest, entries);
    var plans: seq<LinkPlan> := [];
    invoked := 0;
    while invoked < |entries|
      invariant invoked <= |entries|
      invariant Collect(outs[..invoked]) == Ok(plans)
    {
      var res := CreateLink(fs, target, config, dest, entries[invoked]);
      OutcomesAt(fs, target, config, dest, entries, invoked);
      CollectStep(outs, invoked, plans);
      match res {
        case Err(e) =>
          return Err(e), invoked + 1;
        case Ok(p) =>
          plans := plans + [p];
          invoked := invoked + 1;
      }
    }
    CollectAll(outs, plans);
    r := Ok(plans);
  }

  /* ---------------------------------------------------------------------- */
  /* All targets                                                             */
  /* ---------------------------------------------------------------------- */

  /** The targets of a comma-separated list: the pieces between commas, each trimmed. */
  function Targets(list: string): (ts: seq<string>)
    ensures |ts| == CountChar(list, ',') + 1
    ensures forall k :: 0 <= k < |ts| ==> ts[k] == Trim(Split(list, ',')[k])
  {
    var pieces := Split(list, ',');
    seq(|pieces|, k requires 0 <= k < |pieces| => Trim(pieces[k]))
  }

  /** No target holds a comma or surrounding whitespace. */
  lemma TargetsClean(list: string)
    ensures forall k :: 0 <= k < |Targets(list)| ==> ',' !in Targets(list)[k] && Trim(Targets(list)[k]) == Targets(list)[k]
  {
    var pieces := Split(list, ',');
    forall k | 0 <= k < |pieces|
      ensures ',' !in Targets(list)[k] && Trim(Targets(list)[k]) == Targets(list)[k]
    {
      TrimmedPieceClean(pieces[k]);
    }
  }

  lemma TrimmedPieceClean(piece: string)
    requires ',' !in piece
    ensures ',' !in Trim(piece) && Trim(Trim(piece)) == Trim(piece)
  {
    var i, j := TrimIsSlice(piece);
    assert forall c :: c in piece[i..j] ==> c in piece;
    TrimIdempotent(piece);
  }

  /** A list written from targets without commas or surrounding whitespace gives them back in order. */
  lemma TargetsRoundTrip(ts: seq<string>)
    requires |ts| >= 1
    requires forall k :: 0 <= k < |ts| ==> ',' !in ts[k] && Trim(ts[k]) == ts[k]
    ensures Targets(Join(ts, ',')) == ts
  {
    SplitJoin(ts, ',');
  }

  /** How a run of the tool ends: every target processed, or the first failure with its target. */
  datatype RunOutcome =
    | Completed(plans: seq<seq<LinkPlan>>)
    | Panicked(target: string, failure: Failure)

  /** The outcomes of `process_target` for each of `targets`, in order. */
  function TargetOutcomes(fs: FileSystem, targets: seq<string>, config: string, dest: string)
    : (os: seq<Result<seq<LinkPlan>, Failure>>)
    ensures |os| == |targets|
    decreases |targets|
  {
    if targets == [] then []
    else [TargetOutcome(fs, targets[0], config, dest)] + TargetOutcomes(fs, targets[1..], config, dest)
  }

  /** Outcome `k` is that of `process_target` for target `k`. */
  lemma {:induction false} TargetOutcomesAt(fs: FileSystem, targets: seq<string>, config: string, dest: string, k: nat)
    requires k < |targets|
    ensures TargetOutcomes(fs, targets, config, dest)[k] == TargetOutcome(fs, targets[k], config, dest)
    decreases k
  {
    if k > 0 {
      TargetOutcomesAt(fs, targets[1..], config, dest, k - 1);
    }
  }

  /** How a run over `targets` with outcomes `outs` ends: all plans, or the first failure with its target. */
  function Finish(targets: seq<string>, outs: seq<Result<seq<LinkPlan>, Failure>>): RunOutcome
    requires |targets| == |outs|
  {
    StepsRunSpec(outs);
    match Collect(outs)
    case Ok(plans) => Completed(plans)
    case Err(e) => Panicked(targets[StepsRun(outs) - 1], e)
  }

  /**
   * A run completes exactly when every target succeeds, with the links of
   * each target in order; otherwise it stops at the first target that fails,
   * with that target's failure, after processing every target before it
   * successfully.
   */
  lemma FinishSpec(targets: seq<string>, outs: seq<Result<seq<LinkPlan>, Failure>>)
    requires |targets| == |outs|
    ensures var r := Finish(targets, outs);
      var n := StepsRun(outs);
      && n <= |targets|
      && (r.Completed? <==> forall k :: 0 <= k < |outs| ==> outs[k].Ok?)
      && (r.Completed? ==> n == |outs| && |r.plans| == |outs| && forall k :: 0 <= k < |outs| ==> outs[k] == Ok(r.plans[k]))
      && (r.Panicked? ==>
            && 0 < n && r.target == targets[n - 1] && outs[n - 1] == Err(r.failure)
            && forall k :: 0 <= k < n - 1 ==> outs[k].Ok?)
  {
    StepsRunSpec(outs);
    if Collect(outs).Ok? {
      CollectOk(outs, Collect(outs).value);
    }
  }

  /**
   * How `main` ends after configuration: the trimmed targets are processed in
   * order with the trimmed configuration and destination directories, and
   * the first target that fails ends the run.
   */
  function RunResult(fs: FileSystem, list: string, config: string, dest: string): RunOutcome
  {
    Finish(Targets(list), TargetOutcomes(fs, Targets(list), Trim(config), Trim(dest)))
  }

  /** The number of targets `main` hands to `process_target`. */
  function TargetsProcessed(fs: FileSystem, list: string, config: string, dest: string): nat
  {
    StepsRun(TargetOutcomes(fs, Targets(list), Trim(config), Trim(dest)))
  }

  /**
   * `main` after configuration, as the loop the tool runs: it ends as
   * `RunResult` says, after handing `TargetsProcessed` targets to
   * `process_target`.
   */
  method Run(fs: FileSystem, list: string, config: string, dest: string) returns (outcome: RunOutcome, processed: nat)
    ensures outcome == RunResult(fs, list, config, dest)
    ensures processed == TargetsProcessed(fs, list, config, dest)
  {
    var pieces := Split(list, ',');
    var cfg, dst := Trim(config), Trim(dest);
    ghost var ts := Targets(list);
    ghost var outs := TargetOutcomes(fs, ts, cfg, dst);
    var plans: seq<seq<LinkPlan>> := [];
    processed := 0;
    while processed < |pieces|
      invariant processed <= |pieces|
      invariant Collect(outs[..processed]) == Ok(plans)
    {
      var target := Trim(pieces[processed]);
      var r := ProcessPiece(fs, list, cfg, dst, processed, target);
      match r {
        case Err(e) =>
          FinishStops(ts, outs, processed, plans);
          return Panicked(target, e), processed + 1;
        case Ok(ps) =>
          CollectStep(outs, processed, plans);
          plans := plans + [ps];
          processed := processed + 1;
      }
    }
    FinishAll(ts, outs, plans);
    outcome := Completed(plans);
  }

  /** `process_target` on the `k`-th trimmed piece of the list: its result is outcome `k` of the run. */
  method ProcessPiece(fs: FileSystem, list: string, config: string, dest: string, k: nat, target: string)
    returns (r: Result<seq<LinkPlan>, Failure>)
    requires k < |Split(list, ',')| && target == Trim(Split(list, ',')[k])
    ensures r == TargetOutcomes(fs, Targets(list), config, dest)[k]
  {
    var invoked;
    r, invoked := ProcessTarget(fs, target, config, dest);
    RunStep(fs, list, config, dest, k);
  }

  /** Step `k` of `main`'s loop processes the `k`-th trimmed piece of the list. */
  lemma RunStep(fs: FileSystem, list: string, config: string, dest: string, k: nat)
    requires k < |Split(list, ',')|
    ensures Targets(list)[k] == Trim(Split(list, ',')[k])
    ensures TargetOutcomes(fs, Targets(list), config, dest)[k] == TargetOutcome(fs, Trim(Split(list, ',')[k]), config, dest)
  {
    TargetOutcomesAt(fs, Targets(list), config, dest, k);
  }

  /** A target that fails after all earlier ones succeeded ends the run, with that target and its failure. */
  lemma FinishStops(targets: seq<string>, outs: seq<Result<seq<LinkPlan>, Failure>>, i: nat, plans: seq<seq<LinkPlan>>)
    requires |targets| == |outs| && i < |outs|
    requires Collect(outs[..i]) == Ok(plans)
    requires outs[i].Err?
    ensures Finish(targets, outs) == Panicked(targets[i], outs[i].error)
    ensures StepsRun(outs) == i + 1
  {
    CollectStopsAt(outs, i);
  }

  /** When every target succeeded, the run completes with their links. */
  lemma FinishAll(targets: seq<string>, outs: seq<Result<seq<LinkPlan>, Failure>>, plans: seq<seq<LinkPlan>>)
    requires |targets| == |outs|
    requires Collect(outs[..|outs|]) == Ok(plans)
    ensures Finish(targets, outs) == Completed(plans)
    ensures StepsRun(outs) == |outs|
  {
    CollectAll(outs, plans);
  }
}
