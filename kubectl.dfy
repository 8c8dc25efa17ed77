/**
 * The decision rules of src/kubectl.rs around its `kubectl` invocations:
 * the action whitelist, the argument vector, which failures are tolerated,
 * the order in which a chart's manifests are applied or deleted, and the
 * (unused) manifest sort. The outcome of running `kubectl`, the namespace
 * lookup and the directory listing are parameters.
 */
module Kubectl {
  import opened Common

  /** What a `kubectl` invocation reports: its output and `status.code()`. */
  datatype CommandResult = CommandResult(stdout: string, stderr: string, code: Option<int>)

  datatype KubeError =
    | InvalidAction(action: string)         // "Invalid action: .. Must be 'apply' or 'delete'"
    | UrlUnreachable(url: string)           // "Failed to get URL: .."
    | BodyUnreadable(url: string)           // `response.text().await?` failed after a non-success status
    | RunFailed(action: string, target: string)    // run_command itself failed
    | CommandFailed(action: string, target: string) // kubectl exited with an error that is not tolerated
    | Missing(path: string)                 // "Manifest file or directory does not exist: .."
    | Panicked(message: string)             // `run_command(..).expect(..)` aborts the program
    | ListFailed(dir: string)               // `std::fs::read_dir(&manifest_dir)?`
    | NamespaceCheckFailed                  // "Failed to check if namespace .. exists"

  /** One observable step: a `kubectl` invocation with its arguments, or a sleep. */
  datatype Event = Kubectl(args: seq<string>) | Sleep(seconds: nat)

  predicate IsValidAction(action: string) {
    action == "apply" || action == "delete"
  }

  /** The argument vector of `kubectl_url` and `kubectl_manifest_single`. */
  function Args(action: string, target: string, dryRun: bool): (r: seq<string>)
    ensures |r| == (if dryRun then 4 else 3)
    ensures r[..3] == [action, "-f", target]
    ensures dryRun ==> r[3] == "--dry-run=client"
  {
    if dryRun then [action, "-f", target, "--dry-run=client"] else [action, "-f", target]
  }

  const AllowedErrors: seq<string> := ["(NotFound)", "resource mapping not found"]

  /** The `has_allowed_error` closure. */
  predicate HasAllowedError(stderr: string) {
    exists i | 0 <= i < |AllowedErrors| :: Contains(stderr, AllowedErrors[i])
  }

  /** `has_allowed_error` holds exactly when stderr mentions one of the two tolerated messages. */
  lemma AllowedErrorNames(stderr: string)
    ensures HasAllowedError(stderr) <==> Contains(stderr, "(NotFound)") || Contains(stderr, "resource mapping not found")
  {
    if Contains(stderr, "(NotFound)") {
      assert Contains(stderr, AllowedErrors[0]);
    }
    if Contains(stderr, "resource mapping not found") {
      assert Contains(stderr, AllowedErrors[1]);
    }
  }

  /**
   * The verdict on a finished `kubectl`: a non-zero (or missing) exit code
   * is tolerated only for a delete whose stderr says nothing was found.
   */
  function Judge(action: string, target: string, res: CommandResult): (r: Result<(), KubeError>)
    ensures r.Ok? <==>
      || res.code == Some(0)
      || (action == "delete" && (Contains(res.stderr, "(NotFound)") || Contains(res.stderr, "resource mapping not found")))
    ensures r.Err? ==> r.error == CommandFailed(action, target)
  {
    AllowedErrorNames(res.stderr);
    if res.code != Some(0) then
      if action == "delete" && HasAllowedError(res.stderr) then Ok(())
      else Err(CommandFailed(action, target))
    else Ok(())
  }

  /**
   * What the GET of a manifest URL gives: no response, a success status, or
   * a failure status whose body `response.text()` could or could not read.
   */
  datatype UrlProbe = NoResponse | Success | FailureStatus(bodyRead: bool)

  /**
   * `kubectl_url(action, url, dry_run)`: `get` is the outcome of the GET
   * and `run` that of running `kubectl`. Returns the invocations made.
   */
  function KubectlUrl(action: string, url: string, dryRun: bool, get: UrlProbe, run: Option<CommandResult>)
    : (r: (seq<Event>, Result<(), KubeError>))
    ensures !IsValidAction(action) ==> r == ([], Err(InvalidAction(action)))
    ensures IsValidAction(action) && (get.NoResponse? || get == FailureStatus(true)) ==>
              r == ([], Err(UrlUnreachable(url)))
    ensures IsValidAction(action) && get == FailureStatus(false) ==> r == ([], Err(BodyUnreadable(url)))
    ensures r.0 != [] <==> IsValidAction(action) && get.Success?
    ensures r.0 != [] ==> r.0 == [Kubectl(Args(action, url, dryRun))]
    ensures r.1.Ok? <==> IsValidAction(action) && get.Success? && run.Some? && Judge(action, url, run.value).Ok?
    ensures r.0 != [] && run.None? ==> r.1 == Err(RunFailed(action, url))
  {
    if !IsValidAction(action) then ([], Err(InvalidAction(action)))
    else if get.NoResponse? then ([], Err(UrlUnreachable(url)))
    else if get.FailureStatus? then
      if get.bodyRead then ([], Err(UrlUnreachable(url))) else ([], Err(BodyUnreadable(url)))
    else
      var call := [Kubectl(Args(action, url, dryRun))];
      match run
      case None => (call, Err(RunFailed(action, url)))
      case Some(res) => (call, Judge(action, url, res))
  }

  /**
   * What the cluster side of a run looks like: the paths that exist, and
   * what each `kubectl` invocation reports, numbered from 0 in the order
   * they are made; an invocation without a number could not be run at all.
   * Each invocation's arguments are fixed by what the earlier ones
   * reported, so numbering them loses no generality.
   */
  datatype Cluster = Cluster(existing: set<string>, runs: map<nat, CommandResult>)

  /**
   * `kubectl_manifest_single(action, path, dry_run)` as the `k`-th
   * invocation: a missing path fails before kubectl runs; a failure to run
   * it panics.
   */
  function ManifestSingle(action: string, path: string, dryRun: bool, env: Cluster, k: nat)
    : (r: (seq<Event>, Result<(), KubeError>))
    ensures path !in env.existing ==> r == ([], Err(Missing(path)))
    ensures path in env.existing ==> r.0 == [Kubectl(Args(action, path, dryRun))]
    ensures r.1.Ok? <==> path in env.existing && k in env.runs && Judge(action, path, env.runs[k]).Ok?
    ensures r.1.Err? ==> r.1.error.Missing? || r.1.error.Panicked? || r.1.error == CommandFailed(action, path)
  {
    if path !in env.existing then ([], Err(Missing(path)))
    else
      var args := Args(action, path, dryRun);
      if k !in env.runs then ([Kubectl(args)], Err(Panicked("Failed to " + action + " manifest: " + path)))
      else ([Kubectl(args)], Judge(action, path, env.runs[k]))
  }

  // ---------------------------------------------------------------------
  // `kubectl_manifests`

  const NamespaceFile := "namespace.yaml"
  const CrdsFile := "crds.yaml"
  const RbacFile := "rbac.yaml"
  const WebhookFile := "webhook.yaml"
  const InstallFile := "install.yaml"

  /** The special manifests, in the order they are applied or deleted: five distinct names. */
  function FileOrder(action: string): (r: seq<string>)
    requires IsValidAction(action)
    ensures |r| == 5
    ensures forall i, j | 0 <= i < j < |r| :: r[i] != r[j]
    ensures forall f :: f in r <==> f in {NamespaceFile, CrdsFile, RbacFile, WebhookFile, InstallFile}
    ensures r[0] == (if action == "apply" then NamespaceFile else InstallFile)
  {
    if action == "apply" then [NamespaceFile, CrdsFile, RbacFile, WebhookFile, InstallFile]
    else [InstallFile, WebhookFile, RbacFile, CrdsFile, NamespaceFile]
  }

  /** Deleting undoes applying: the delete order is the apply order reversed. */
  lemma DeleteOrderReversesApply()
    ensures FileOrder("delete") == Reverse(FileOrder("apply"))
    ensures |FileOrder("apply")| == 5
  {
    var a := FileOrder("apply");
    assert Reverse(a)[0] == a[4] && Reverse(a)[1] == a[3] && Reverse(a)[2] == a[2];
    assert Reverse(a)[3] == a[1] && Reverse(a)[4] == a[0];
  }

  /** How long to wait for the CRDs: shorter when the namespace is already there. */
  function WaitTime(namespaceExists: bool): (secs: nat)
    ensures secs == 30 || secs == 300
    ensures namespaceExists <==> secs == 30
  {
    if namespaceExists then 30 else 300
  }

  /** `PathBuf::to_string_lossy` of a path of components. */
  function Display(p: Path): string {
    if p == [] then "" else if |p| == 1 then p[0] else Display(p[..|p| - 1]) + "/" + p[|p| - 1]
  }

  /** `p.ends_with(file)` for a one-component `file`: compared by components, not characters. */
  predicate EndsWithFile(p: Path, file: string) {
    p != [] && p[|p| - 1] == file
  }

  /** `entries.iter().find(|p| p.ends_with(file))`. */
  function FindEnding(entries: seq<Path>, file: string): (r: Option<Path>)
    ensures r.Some? ==> r.value in entries && EndsWithFile(r.value, file)
    ensures r.None? <==> forall i | 0 <= i < |entries| :: !EndsWithFile(entries[i], file)
    ensures r.Some? ==> exists i | 0 <= i < |entries| :: entries[i] == r.value &&
                          forall j | 0 <= j < i :: !EndsWithFile(entries[j], file)
  {
    if entries == [] then None
    else if EndsWithFile(entries[0], file) then Some(entries[0])
    else
      var r := FindEnding(entries[1..], file);
      assert forall i | 0 <= i < |entries[1..]| :: entries[1..][i] == entries[i + 1];
      if r.Some? then
        ghost var i :| 0 <= i < |entries[1..]| && entries[1..][i] == r.value &&
                       forall j | 0 <= j < i :: !EndsWithFile(entries[1..][j], file);
        assert entries[i + 1] == r.value;
        r
      else r
  }

  /** The manifests of the first loop: for each special name in order, the first entry ending with it. */
  function SpecialTargets(order: seq<string>, entries: seq<Path>): seq<Path> {
    if order == [] then []
    else OptionToSeq(FindEnding(entries, order[0])) + SpecialTargets(order[1..], entries)
  }

  /** Every special target is a listed entry, so it is processed again by the second loop. */
  lemma {:induction false} SpecialTargetsAreEntries(order: seq<string>, entries: seq<Path>)
    ensures |SpecialTargets(order, entries)| <= |order|
    ensures forall i | 0 <= i < |SpecialTargets(order, entries)| :: SpecialTargets(order, entries)[i] in entries
  {
    if order != [] {
      SpecialTargetsAreEntries(order[1..], entries);
    }
  }

  /** The special targets of a list of names are those of a prefix followed by those of the rest. */
  lemma {:induction false} SpecialTargetsSplit(order: seq<string>, entries: seq<Path>, k: nat)
    requires k <= |order|
    ensures SpecialTargets(order, entries) == SpecialTargets(order[..k], entries) + SpecialTargets(order[k..], entries)
    decreases k
  {
    if k == 0 {
      assert order[..0] == [] && order[0..] == order;
    } else {
      SpecialTargetsSplit(order[1..], entries, k - 1);
      assert order[1..][..k - 1] == order[..k][1..] && order[1..][k - 1..] == order[k..];
      assert order[..k][0] == order[0];
    }
  }

  /**
   * Each special name contributes the first entry ending with it, if any, at
   * its place in the order.
   */
  lemma SpecialTargetOrder(order: seq<string>, entries: seq<Path>, k: nat)
    requires k < |order|
    ensures SpecialTargets(order[..k + 1], entries) ==
      SpecialTargets(order[..k], entries) + OptionToSeq(FindEnding(entries, order[k]))
  {
    SpecialTargetsSplit(order[..k + 1], entries, k);
    assert order[..k + 1][..k] == order[..k];
    var last := order[..k + 1][k..];
    assert last == [order[k]] && last[1..] == [];
    assert SpecialTargets(last, entries) == OptionToSeq(FindEnding(entries, order[k])) + [];
  }

  /**
   * Run `kubectl_manifest_single` on each target in turn, stopping at the
   * first failure; `start` numbers the first invocation. The invocations
   * made are those of a prefix of the targets, all of them on success.
   */
  function Phase(action: string, targets: seq<Path>, dryRun: bool, 
                 env: Cluster, start: nat): (r: (seq<Event>, Result<(), KubeError>))
    decreases |targets|
  {
    if targets == [] then ([], Ok(()))
    else
      var (ev, r) := ManifestSingle(action, Display(targets[0]), dryRun, env, start);
      if r.Err? then (ev, r)
      else
        var (rest, r') := Phase(action, targets[1..], dryRun, env, start + |ev|);
        (ev + rest, r')
  }

  function After(prefix: seq<Event>, step: (seq<Event>, Result<(), KubeError>)): (seq<Event>, Result<(), KubeError>) {
    (prefix + step.0, step.1)
  }

  lemma AfterNothing(step: (seq<Event>, Result<(), KubeError>))
    ensures After([], step) == step
  {
    assert [] + step.0 == step.0;
  }

  lemma AfterStep(trace: seq<Event>, ev: seq<Event>, step: (seq<Event>, Result<(), KubeError>))
    ensures After(trace, (ev + step.0, step.1)) == After(trace + ev, step)
  {
    assert trace + (ev + step.0) == trace + ev + step.0;
  }

  /**
   * `kubectl_manifests(action, name, filename, dry_run)`. `entries` is what
   * `read_dir` lists in the chart's directory (`None` if it fails),
   * `namespaceExists` the answer of the namespace lookup. The `kubectl`
   * invocations are numbered from 0 in the order they are made.
   */
  method Manifests(action: string, name: string, filename: Option<string>, dryRun: bool,
                   entries: Option<seq<Path>>, namespaceExists: Option<bool>,
                   env: Cluster)
    returns (trace: seq<Event>, r: Result<(), KubeError>)
    ensures !IsValidAction(action) ==> trace == [] && r == Err(InvalidAction(action))
    ensures IsValidAction(action) && filename.Some? ==>
      (trace, r) == ManifestSingle(action, "config/manifests/" + name + "/" + filename.value, dryRun, env, 0)
    ensures IsValidAction(action) && filename.None? && entries.None? ==>
      trace == [] && r == Err(ListFailed("config/manifests/" + name))
    ensures IsValidAction(action) && filename.None? && entries.Some? ==>
      var first := Phase(action, SpecialTargets(FileOrder(action), entries.value), dryRun, env, 0);
      if first.1.Err? then (trace, r) == first
      else if namespaceExists.None? then (trace, r) == (first.0, Err(NamespaceCheckFailed))
      else
        var pause := if action == "apply" then [Sleep(WaitTime(namespaceExists.value))] else [];
        (trace, r) == After(first.0 + pause, Phase(action, entries.value, dryRun, env, |first.0|))
  {
    if action != "apply" && action != "delete" {
      return [], Err(InvalidAction(action));
    }
    var dir := "config/manifests/" + name;
    if filename.Some? {
      var single := ManifestSingle(action, dir + "/" + filename.value, dryRun, env, 0);
      return single.0, single.1;
    }
    if entries.None? {
      return [], Err(ListFailed(dir));
    }
    var listing := entries.value;
    var first, res := SpecialPhase(action, FileOrder(action), listing, dryRun, env, 0);
    if res.Err? {
      return first, res;
    }
    if namespaceExists.None? {
      return first, Err(NamespaceCheckFailed);
    }
    var wait := WaitTime(namespaceExists.value);
    var pause := if action == "apply" then [Sleep(wait)] else [];
    var rest;
    rest, r := EntriesPhase(action, listing, dryRun, env, |first|);
    trace := first + pause + rest;
  }

  /**
   * A phase makes at most one invocation per target, exactly one on
   * success, and the `i`-th invocation is that of the `i`-th target.
   */
  lemma {:induction false} PhaseEvents(action: string, targets: seq<Path>, dryRun: bool, env: Cluster, start: nat)
    ensures var r := Phase(action, targets, dryRun, env, start);
      && |r.0| <= |targets|
      && (r.1.Ok? ==> |r.0| == |targets|)
      && forall i | 0 <= i < |r.0| :: r.0[i] == Kubectl(Args(action, Display(targets[i]), dryRun))
    decreases |targets|
  {
    if targets != [] {
      var step := ManifestSingle(action, Display(targets[0]), dryRun, env, start);
      if step.1.Ok? {
        var k := start + |step.0|;
        PhaseEvents(action, targets[1..], dryRun, env, k);
        var rest := Phase(action, targets[1..], dryRun, env, k);
        assert Phase(action, targets, dryRun, env, start) == (step.0 + rest.0, rest.1);
        assert step.0 == [Kubectl(Args(action, Display(targets[0]), dryRun))];
        forall i | 1 <= i < 1 + |rest.0|
          ensures (step.0 + rest.0)[i] == Kubectl(Args(action, Display(targets[i]), dryRun))
        {
          assert targets[1..][i - 1] == targets[i];
        }
      }
    }
  }

  /**
   * One step of a phase after the invocations `trace`: the first target's
   * invocation, then the rest of the phase after it.
   */
  lemma PhaseStep(action: string, targets: seq<Path>, dryRun: bool, 
                  env: Cluster, trace: seq<Event>, start: nat)
    requires targets != []
    ensures var step := ManifestSingle(action, Display(targets[0]), dryRun, env, start + |trace|);
      After(trace, Phase(action, targets, dryRun, env, start + |trace|)) ==
        if step.1.Err? then (trace + step.0, step.1)
        else After(trace + step.0, Phase(action, targets[1..], dryRun, env, start + |trace + step.0|))
  {
    var step := ManifestSingle(action, Display(targets[0]), dryRun, env, start + |trace|);
    if step.1.Ok? {
      AfterStep(trace, step.0, Phase(action, targets[1..], dryRun, env, start + |trace| + |step.0|));
    }
  }

  /** A phase over two lists of targets whose first part succeeds goes on with the second. */
  lemma {:induction false} PhaseAppendOk(action: string, a: seq<Path>, b: seq<Path>, dryRun: bool, env: Cluster,
                                         trace: seq<Event>, start: nat)
    requires Phase(action, a, dryRun, env, start) == (trace, Ok(()))
    ensures Phase(action, a + b, dryRun, env, start) == After(trace, Phase(action, b, dryRun, env, start + |trace|))
    decreases |a|
  {
    if a == [] {
      assert a + b == b;
      AfterNothing(Phase(action, b, dryRun, env, start));
    } else {
      assert (a + b)[0] == a[0] && (a + b)[1..] == a[1..] + b;
      var step := ManifestSingle(action, Display(a[0]), dryRun, env, start);
      var k := start + |step.0|;
      var rest := Phase(action, a[1..], dryRun, env, k);
      PhaseAppendOk(action, a[1..], b, dryRun, env, rest.0, k);
      AfterStep(step.0, rest.0, Phase(action, b, dryRun, env, k + |rest.0|));
    }
  }

  /** A phase over two lists of targets whose first part fails stops there. */
  lemma {:induction false} PhaseAppendErr(action: string, a: seq<Path>, b: seq<Path>, dryRun: bool, env: Cluster, start: nat)
    requires Phase(action, a, dryRun, env, start).1.Err?
    ensures Phase(action, a + b, dryRun, env, start) == Phase(action, a, dryRun, env, start)
    decreases |a|
  {
    assert a != [];
    assert (a + b)[0] == a[0] && (a + b)[1..] == a[1..] + b;
    var step := ManifestSingle(action, Display(a[0]), dryRun, env, start);
    if step.1.Ok? {
      PhaseAppendErr(action, a[1..], b, dryRun, env, start + |step.0|);
    }
  }

  /** A phase over one target is that target's invocation. */
  lemma PhaseOne(action: string, t: Path, dryRun: bool, 
                 env: Cluster, start: nat)
    ensures Phase(action, [t], dryRun, env, start) == ManifestSingle(action, Display(t), dryRun, env, start)
  {
    assert [t][0] == t && [t][1..] == [];
    var step := ManifestSingle(action, Display(t), dryRun, env, start);
    assert step.0 + [] == step.0;
  }

  /**
   * A turn of the first loop, after the names before `i` all succeeded with
   * the invocations `trace`: the `i`-th name runs its first matching entry, if any.
   */
  lemma SpecialGrow(action: string, order: seq<string>, i: nat, listing: seq<Path>, dryRun: bool, env: Cluster,
                    trace: seq<Event>, start: nat, found: Option<Path>)
    requires i < |order| && found == FindEnding(listing, order[i])
    requires Phase(action, SpecialTargets(order[..i], listing), dryRun, env, start) == (trace, Ok(()))
    ensures found.None? ==> Phase(action, SpecialTargets(order[..i + 1], listing), dryRun, env, start) == (trace, Ok(()))
    ensures found.Some? ==>
      var step := ManifestSingle(action, Display(found.value), dryRun, env, start + |trace|);
      Phase(action, SpecialTargets(order[..i + 1], listing), dryRun, env, start) == (trace + step.0, step.1)
  {
    var before := SpecialTargets(order[..i], listing);
    SpecialTargetOrder(order, listing, i);
    PhaseAppendOk(action, before, OptionToSeq(found), dryRun, env, trace, start);
    if found.None? {
      assert trace + [] == trace;
    } else {
      PhaseOne(action, found.value, dryRun, env, start + |trace|);
    }
  }

  /** Once the names before `i` have failed, the rest of the first loop runs nothing. */
  lemma SpecialStop(action: string, order: seq<string>, i: nat, listing: seq<Path>, dryRun: bool, 
                    env: Cluster, start: nat)
    requires i <= |order|
    requires Phase(action, SpecialTargets(order[..i], listing), dryRun, env, start).1.Err?
    ensures Phase(action, SpecialTargets(order, listing), dryRun, env, start) ==
      Phase(action, SpecialTargets(order[..i], listing), dryRun, env, start)
  {
    SpecialTargetsSplit(order, listing, i);
    PhaseAppendErr(action, SpecialTargets(order[..i], listing), SpecialTargets(order[i..], listing), dryRun, env, start);
  }

  /**
   * The body of the first loop for the `i`-th special name, after the names
   * before it all succeeded with the invocations `trace`.
   */
  method SpecialTurn(action: string, order: seq<string>, i: nat, listing: seq<Path>, dryRun: bool,
                     env: Cluster, trace: seq<Event>, start: nat)
    returns (next: seq<Event>, r: Result<(), KubeError>)
    requires i < |order|
    requires Phase(action, SpecialTargets(order[..i], listing), dryRun, env, start) == (trace, Ok(()))
    ensures Phase(action, SpecialTargets(order[..i + 1], listing), dryRun, env, start) == (next, r)
  {
    var found := FindEnding(listing, order[i]);
    SpecialGrow(action, order, i, listing, dryRun, env, trace, start, found);
    if found.None? {
      return trace, Ok(());
    }
    var step := ManifestSingle(action, Display(found.value), dryRun, env, start + |trace|);
    return trace + step.0, step.1;
  }

  /** The first loop: each special name of `order` in turn, run on the first entry ending with it. */
  method SpecialPhase(action: string, order: seq<string>, listing: seq<Path>, dryRun: bool,
                      env: Cluster, start: nat)
    returns (trace: seq<Event>, r: Result<(), KubeError>)
    ensures (trace, r) == Phase(action, SpecialTargets(order, listing), dryRun, env, start)
  {
    trace := [];
    assert order[..0] == [];
    var i := 0;
    while i < |order|
      invariant 0 <= i <= |order|
      invariant Phase(action, SpecialTargets(order[..i], listing), dryRun, env, start) == (trace, Ok(()))
    {
      var next, res := SpecialTurn(action, order, i, listing, dryRun, env, trace, start);
      if res.Err? {
        SpecialStop(action, order, i + 1, listing, dryRun, env, start);
        return next, res;
      }
      assert res.value == ();
      trace := next;
      i := i + 1;
    }
    assert order[..i] == order;
    return trace, Ok(());
  }

  /** The second loop: every entry, in the order `read_dir` listed them. */
  method EntriesPhase(action: string, listing: seq<Path>, dryRun: bool,
                      env: Cluster, start: nat)
    returns (trace: seq<Event>, r: Result<(), KubeError>)
    ensures (trace, r) == Phase(action, listing, dryRun, env, start)
  {
    ghost var goal := Phase(action, listing, dryRun, env, start);
    trace := [];
    assert listing[0..] == listing;
    AfterNothing(goal);
    var k := 0;
    while k < |listing|
      invariant 0 <= k <= |listing|
      invariant goal == After(trace, Phase(action, listing[k..], dryRun, env, start + |trace|))
    {
      assert listing[k..][1..] == listing[k + 1..] && listing[k..][0] == listing[k];
      PhaseStep(action, listing[k..], dryRun, env, trace, start);
      var step := ManifestSingle(action, Display(listing[k]), dryRun, env, start + |trace|);
      if step.1.Err? {
        return trace + step.0, step.1;
      }
      trace := trace + step.0;
      k := k + 1;
    }
    assert listing[k..] == [] && trace + [] == trace;
    return trace, Ok(());
  }

  // ---------------------------------------------------------------------
  // `_sort_manifest_files`

  datatype Ordering = Less | Equal | Greater {
    function Reverse(): Ordering {
      match this
      case Less => Greater
      case Equal => Equal
      case Greater => Less
    }
    function ThenWith(other: Ordering): Ordering {
      if this == Equal then other else this
    }
  }

  /** `str::cmp`: lexicographic by character. Only equal strings compare `Equal`. */
  function Lex(x: string, y: string): (r: Ordering)
    ensures r == Equal <==> x == y
  {
    if x == [] && y == [] then Equal
    else if x == [] then Less
    else if y == [] then Greater
    else if x[0] < y[0] then Less
    else if x[0] > y[0] then Greater
    else
      assert x == [x[0]] + x[1..] && y == [y[0]] + y[1..];
      Lex(x[1..], y[1..])
  }

  /** `str::cmp` is antisymmetric: swapping the operands reverses the verdict. */
  lemma {:induction false} LexFlips(x: string, y: string)
    ensures Lex(y, x) == Lex(x, y).Reverse()
    decreases |x|
  {
    if x != [] && y != [] && x[0] == y[0] {
      LexFlips(x[1..], y[1..]);
    }
  }

  /** `char::to_lowercase` on one character, for the ASCII letters. */
  function LowerChar(c: char): char {
    if 'A' <= c <= 'Z' then (c as int + 32) as char else c
  }

  /** `to_lowercase`, on the ASCII letters: character by character, and no ASCII capital is left. */
  function Lower(s: string): (r: string)
    ensures |r| == |s|
    ensures forall i | 0 <= i < |s| :: r[i] == LowerChar(s[i])
    ensures forall i | 0 <= i < |r| :: !('A' <= r[i] <= 'Z')
  {
    if s == [] then []
    else [LowerChar(s[0])] + Lower(s[1..])
  }

  /** Lowercasing twice changes nothing more. */
  lemma LowerIdempotent(s: string)
    ensures Lower(Lower(s)) == Lower(s)
  {
    var once := Lower(s);
    assert forall i | 0 <= i < |once| :: Lower(once)[i] == once[i];
  }

  /** `file_name()` of a path of components: its last component. */
  function FileName(p: Path): string {
    if p == [] then "" else p[|p| - 1]
  }

  /** The position of the last dot of `s`, if it has one. */
  function LastDot(s: string): (r: Option<nat>)
    ensures r.Some? ==> r.value < |s| && s[r.value] == '.'
    ensures r.Some? ==> forall j | r.value < j < |s| :: s[j] != '.'
    ensures r.None? ==> forall j | 0 <= j < |s| :: s[j] != '.'
  {
    if s == [] then None
    else if s[|s| - 1] == '.' then Some(|s| - 1)
    else LastDot(s[..|s| - 1])
  }

  /** `extension().unwrap_or_default()`: after the last dot, none for a name without one or with only a leading one. */
  function Extension(name: string): (r: string)
    ensures r != [] ==> exists i | 0 < i < |name| :: name[i] == '.' && r == name[i + 1..]
    ensures forall j | 0 <= j < |r| :: r[j] != '.'
    ensures (forall j | 0 < j < |name| :: name[j] != '.') ==> r == []
    ensures forall i | 0 < i < |name| && name[i] == '.' && (forall j | i < j < |name| :: name[j] != '.') ::
              r == name[i + 1..]
  {
    match LastDot(name)
    case None => ""
    case Some(i) =>
      if i == 0 || name == ".." then ""
      else name[i + 1..]
  }

  /** Lowercasing moves no dot, so the last dot stays where it was. */
  lemma LastDotLower(name: string)
    ensures LastDot(Lower(name)) == LastDot(name)
  {
    var low := Lower(name);
    assert forall i | 0 <= i < |name| :: low[i] == '.' <==> name[i] == '.';
    var d, e := LastDot(low), LastDot(name);
    if d.Some? && e.Some? {
      assert !(d.value < e.value) && !(e.value < d.value);
    }
  }

  /** Only `..` lowercases to `..`. */
  lemma DotDotLower(name: string)
    ensures Lower(name) == ".." <==> name == ".."
  {
    if Lower(name) == ".." {
      assert name[0] == '.' && name[1] == '.';
    }
  }

  /** Lowercasing commutes with taking a suffix. */
  lemma LowerSuffix(s: string, k: nat)
    requires k <= |s|
    ensures Lower(s)[k..] == Lower(s[k..])
  {
    assert forall j | 0 <= j < |s| - k :: Lower(s)[k..][j] == Lower(s[k..])[j];
  }

  /** Lowercasing a name and taking its extension commute. */
  lemma ExtensionOfLower(name: string)
    ensures Extension(Lower(name)) == Lower(Extension(name))
  {
    LastDotLower(name);
    DotDotLower(name);
    match LastDot(name)
    case None =>
    case Some(i) =>
      if i != 0 && name != ".." {
        LowerSuffix(name, i + 1);
      }
  }

  /** The position of `x` in the priority list. */
  function Position(ps: seq<string>, x: string): (i: nat)
    requires x in ps
    ensures i < |ps| && ps[i] == x
    ensures forall j | 0 <= j < i :: ps[j] != x
  {
    if ps[0] == x then 0 else 1 + Position(ps[1..], x)
  }

  function CmpInt(a: int, b: int): (r: Ordering)
    ensures r == Equal <==> a == b
    ensures r == Less <==> a < b
  {
    if a < b then Less else if a > b then Greater else Equal
  }

  /**
   * The `cmp` closure over lowercased file names: prioritised names by
   * their place in the list, before (apply) or after (delete) the others,
   * which compare as strings. Only equal names compare `Equal`.
   */
  function CmpNames(action: string, priorities: seq<string>, x: string, y: string): (r: Ordering)
    ensures r == Equal <==> x == y
    ensures x != y && x in priorities && y !in priorities ==> r == (if action == "apply" then Less else Greater)
    ensures x in priorities && y in priorities ==> (r == Less <==> Position(priorities, x) < Position(priorities, y))
  {
    var order := if action == "apply" then Less else Greater;
    if x == y then Equal
    else if x in priorities then
      if y in priorities then CmpInt(Position(priorities, x), Position(priorities, y)) else order
    else if y in priorities then order.Reverse()
    else Lex(x, y)
  }

  /** The name comparison is antisymmetric. */
  lemma CmpNamesFlips(action: string, priorities: seq<string>, x: string, y: string)
    ensures CmpNames(action, priorities, y, x) == CmpNames(action, priorities, x, y).Reverse()
  {
    LexFlips(x, y);
  }

  /**
   * The comparator handed to `sort_by`: by lowercased name, then by
   * lowercased extension. Since only equal names compare `Equal`, and equal
   * names have equal extensions, two paths tie exactly when their
   * lowercased names agree.
   */
  function Compare(action: string, priorities: seq<string>, a: Path, b: Path): (r: Ordering)
    ensures r == Equal <==> Lower(FileName(a)) == Lower(FileName(b))
  {
    var an := Lower(FileName(a));
    var bn := Lower(FileName(b));
    ExtensionOfLower(FileName(a));
    ExtensionOfLower(FileName(b));
    CmpNames(action, priorities, an, bn).ThenWith(Lex(Lower(Extension(FileName(a))), Lower(Extension(FileName(b)))))
  }

  /** The comparator is antisymmetric, as `sort_by` requires of a total order. */
  lemma CompareFlips(action: string, priorities: seq<string>, a: Path, b: Path)
    ensures Compare(action, priorities, b, a) == Compare(action, priorities, a, b).Reverse()
  {
    CmpNamesFlips(action, priorities, Lower(FileName(a)), Lower(FileName(b)));
    LexFlips(Lower(Extension(FileName(a))), Lower(Extension(FileName(b))));
  }

  predicate Prioritised(priorities: seq<string>, p: Path) {
    Lower(FileName(p)) in priorities
  }

  /** Under "apply" a prioritised name sorts before any other, under "delete" after it. */
  lemma PrioritisedComparesFirst(action: string, priorities: seq<string>, a: Path, b: Path)
    requires Prioritised(priorities, a) && !Prioritised(priorities, b)
    ensures action == "apply" ==> Compare(action, priorities, a, b) == Less && Compare(action, priorities, b, a) == Greater
    ensures action != "apply" ==> Compare(action, priorities, a, b) == Greater && Compare(action, priorities, b, a) == Less
  {
  }

  /** What `sort_by` guarantees of its output: no neighbours out of order. */
  predicate SortedBy(action: string, priorities: seq<string>, s: seq<Path>) {
    forall i | 0 <= i < |s| - 1 :: Compare(action, priorities, s[i], s[i + 1]) != Greater
  }

  /** `s` lists every element with property `p` before every element without it. */
  predicate Partitioned(s: seq<Path>, priorities: seq<string>) {
    forall i, j | 0 <= i < j < |s| && Prioritised(priorities, s[j]) :: Prioritised(priorities, s[i])
  }

  lemma {:induction false} NoDescentPartitions(s: seq<Path>, priorities: seq<string>)
    requires forall i | 0 <= i < |s| - 1 :: Prioritised(priorities, s[i + 1]) ==> Prioritised(priorities, s[i])
    ensures Partitioned(s, priorities)
    decreases |s|
  {
    if |s| > 1 {
      NoDescentPartitions(s[1..], priorities);
      forall i, j | 0 <= i < j < |s| && Prioritised(priorities, s[j]) ensures Prioritised(priorities, s[i]) {
        if i > 0 {
          assert s[1..][i - 1] == s[i] && s[1..][j - 1] == s[j];
        } else {
          assert s[1..][j - 1] == s[j];
          if j > 1 {
            assert Prioritised(priorities, s[1]) by {
              assert s[1..][0] == s[1];
            }
          }
        }
      }
    }
  }

  lemma {:induction false} ReversePartitions(s: seq<Path>, priorities: seq<string>)
    requires forall i, j | 0 <= i < j < |s| && Prioritised(priorities, s[i]) :: Prioritised(priorities, s[j])
    ensures Partitioned(Reverse(s), priorities)
  {
    var r := Reverse(s);
    forall i, j | 0 <= i < j < |r| && Prioritised(priorities, r[j]) ensures Prioritised(priorities, r[i]) {
      assert r[j] == s[|s| - 1 - j] && r[i] == s[|s| - 1 - i];
    }
  }

  /** Keeping only some entries keeps them in order, so a partitioned list stays partitioned. */
  lemma {:induction false} FilterPartitions(s: seq<Path>, keep: Path -> bool, priorities: seq<string>)
    requires Partitioned(s, priorities)
    ensures Partitioned(Filter(s, keep), priorities)
    decreases |s|
  {
    if s != [] {
      assert Partitioned(s[1..], priorities) by {
        forall i, j | 0 <= i < j < |s[1..]| && Prioritised(priorities, s[1..][j]) ensures Prioritised(priorities, s[1..][i]) {
          assert s[1..][i] == s[i + 1] && s[1..][j] == s[j + 1];
        }
      }
      FilterPartitions(s[1..], keep, priorities);
      FilterElements(s[1..], keep);
    }
  }

  function Filter(s: seq<Path>, keep: Path -> bool): seq<Path> {
    if s == [] then [] else (if keep(s[0]) then [s[0]] else []) + Filter(s[1..], keep)
  }

  lemma {:induction false} FilterElements(s: seq<Path>, keep: Path -> bool)
    ensures forall i | 0 <= i < |Filter(s, keep)| :: Filter(s, keep)[i] in s && keep(Filter(s, keep)[i])
    ensures forall x | x in s && keep(x) :: x in Filter(s, keep)
    decreases |s|
  {
    if s != [] {
      FilterElements(s[1..], keep);
    }
  }

  /**
   * Whatever the comparator's other flaws, a sorted listing puts the
   * prioritised manifests first under both actions: ascending for "apply",
   * and for "delete" the comparator puts them last and the reversal brings
   * them to the front.
   */
  lemma PrioritisedFirst(action: string, priorities: seq<string>, sorted: seq<Path>, keep: Path -> bool)
    requires IsValidAction(action)
    requires SortedBy(action, priorities, sorted)
    ensures Partitioned(Filter(if action == "delete" then Reverse(sorted) else sorted, keep), priorities)
  {
    if action == "delete" {
      forall i | 0 <= i < |sorted| - 1 ensures Prioritised(priorities, sorted[i]) ==> Prioritised(priorities, sorted[i + 1]) {
        if Prioritised(priorities, sorted[i]) && !Prioritised(priorities, sorted[i + 1]) {
          PrioritisedComparesFirst(action, priorities, sorted[i], sorted[i + 1]);
        }
      }
      var flipped := Reverse(sorted);
      assert forall i, j | 0 <= i < j < |sorted| && Prioritised(priorities, sorted[i]) :: Prioritised(priorities, sorted[j]) by {
        var rev := Reverse(sorted);
        forall i | 0 <= i < |rev| - 1 ensures Prioritised(priorities, rev[i + 1]) ==> Prioritised(priorities, rev[i]) {
          assert rev[i] == sorted[|sorted| - 1 - i] && rev[i + 1] == sorted[|sorted| - 2 - i];
        }
        NoDescentPartitions(rev, priorities);
        forall i, j | 0 <= i < j < |sorted| && Prioritised(priorities, sorted[i]) ensures Prioritised(priorities, sorted[j]) {
          assert sorted[i] == rev[|sorted| - 1 - i] && sorted[j] == rev[|sorted| - 1 - j];
        }
      }
      ReversePartitions(sorted, priorities);
      FilterPartitions(flipped, keep, priorities);
    } else {
      forall i | 0 <= i < |sorted| - 1 ensures Prioritised(priorities, sorted[i + 1]) ==> Prioritised(priorities, sorted[i]) {
        if Prioritised(priorities, sorted[i + 1]) && !Prioritised(priorities, sorted[i]) {
          PrioritisedComparesFirst(action, priorities, sorted[i + 1], sorted[i]);
        }
      }
      NoDescentPartitions(sorted, priorities);
      FilterPartitions(sorted, keep, priorities);
    }
  }

  /** `entries.reverse()` in place. */
  method ReverseInPlace(a: array<Path>)
    modifies a
    ensures a[..] == Reverse(old(a[..]))
  {
    var i, j := 0, a.Length - 1;
    while i < j
      invariant 0 <= i <= a.Length && j == a.Length - 1 - i
      invariant i <= j + 1
      invariant forall k | 0 <= k < i :: a[k] == old(a[a.Length - 1 - k])
      invariant forall k | j < k < a.Length :: a[k] == old(a[a.Length - 1 - k])
      invariant forall k | i <= k <= j :: a[k] == old(a[k])
    {
      a[i], a[j] := a[j], a[i];
      i, j := i + 1, j - 1;
    }
  }

  /** `sort_by` leaving the slice in the order `sorted`. */
  method WriteBack(a: array<Path>, sorted: seq<Path>)
    requires |sorted| == a.Length
    modifies a
    ensures a[..] == sorted
  {
    var i := 0;
    while i < a.Length
      invariant 0 <= i <= a.Length
      invariant a[..i] == sorted[..i]
    {
      a[i] := sorted[i];
      i := i + 1;
    }
    assert a[..] == a[..a.Length];
  }

  /** `entries.iter().filter(|entry| entry.is_file()).collect()`. */
  method KeepFiles(a: array<Path>, isFile: Path -> bool) returns (out: seq<Path>)
    ensures out == Filter(a[..], isFile)
  {
    ghost var all := a[..];
    out := [];
    var k := 0;
    assert all[0..] == all;
    assert [] + Filter(all, isFile) == Filter(all, isFile);
    while k < a.Length
      invariant 0 <= k <= a.Length
      invariant Filter(all, isFile) == out + Filter(all[k..], isFile)
    {
      FilterStep(all, k, isFile, out);
      out := out + (if isFile(a[k]) then [a[k]] else []);
      k := k + 1;
    }
    assert all[k..] == [] && out + [] == out;
  }

  lemma FilterStep(s: seq<Path>, k: nat, keep: Path -> bool, pre: seq<Path>)
    requires k < |s|
    ensures pre + Filter(s[k..], keep) == (pre + (if keep(s[k]) then [s[k]] else [])) + Filter(s[k + 1..], keep)
  {
    assert s[k..][1..] == s[k + 1..];
  }

  /**
   * `_sort_manifest_files(entries, action, priorities)`. `sorted` is the
   * order `sort_by` leaves the slice in; `isFile` stands for `Path::is_file`.
   */
  method SortManifestFiles(entries: array<Path>, action: string, priorities: seq<string>,
                           sorted: seq<Path>, isFile: Path -> bool) returns (out: seq<Path>)
    requires multiset(sorted) == multiset(entries[..]) && SortedBy(action, priorities, sorted)
    modifies entries
    ensures entries[..] == (if action == "delete" then Reverse(sorted) else sorted)
    ensures multiset(entries[..]) == multiset(old(entries[..]))
    ensures out == Filter(entries[..], isFile)
    ensures IsValidAction(action) ==> Partitioned(out, priorities)
  {
    assert |sorted| == entries.Length by {
      assert |multiset(sorted)| == |multiset(entries[..])|;
    }
    WriteBack(entries, sorted);
    if action == "delete" {
      ReverseInPlace(entries);
      ReversePreservesMultiset(sorted);
    }
    out := KeepFiles(entries, isFile);
    if IsValidAction(action) {
      PrioritisedFirst(action, priorities, sorted, isFile);
    }
  }

  lemma {:induction false} ReversePreservesMultiset(s: seq<Path>)
    ensures multiset(Reverse(s)) == multiset(s)
  {
    if s != [] {
      ReversePreservesMultiset(s[1..]);
      assert s == [s[0]] + s[1..];
    }
  }
}
