/** generate_core_classes: the fixed catalogue of framework classes and the batch
    that generates the selected ones, stopping at the first abort. */
module Batch {
  import opened Wrappers
  import opened Sequences
  import opened Text
  import opened Api
  import opened Generate

  /** The caller's params of generate_core_classes: the selection (`:class`, "all"
      or a simple class name) and the values copied into the lifecycle requests. */
  datatype BatchParams = BatchParams(
    selection: string,
    methodBase: string,
    methodInclude: string,
    methodExclude: string,
    implements: string,
    force: bool)

  /** The three catalogues, each with its own request shape. */
  datatype Catalogue = Listeners | Lifecycle | DirectOnly

  /** The entries of a catalogue, in the source's order, each as its dot-separated parts. */
  function Parts(c: Catalogue): seq<seq<string>> {
    match c
    case Listeners =>
      [["android", "view", "View", "OnClickListener"], ["android", "widget", "AdapterView", "OnItemClickListener"]]
    case Lifecycle =>
      [["android", "app", "Activity"], ["android", "app", "Service"],
       ["android", "content", "BroadcastReceiver"], ["android", "view", "View"]]
    case DirectOnly =>
      [["android", "preference", "PreferenceActivity"], ["android", "app", "TabActivity"]]
  }

  /** The qualified names of a catalogue, android.view.View.OnClickListener and so on. */
  function Members(c: Catalogue): (r: seq<string>)
    ensures |r| == |Parts(c)|
  {
    seq(|Parts(c)|, k requires 0 <= k < |Parts(c)| => Join(Parts(c)[k], "."))
  }

  /** `params[:class] == name`, or "all" for the two catalogues that take it. */
  predicate Selected(c: Catalogue, selection: string, qualified: string) {
    SimpleName(qualified) == Some(selection) || (c != DirectOnly && selection == "all")
  }

  /** "Ruboto" followed by the simple name. */
  function RubotoName(qualified: string): string {
    "Ruboto" + SimpleName(qualified).GetOr("")
  }

  /** The exclusion list of the lifecycle classes: the caller's names with onCreate
      and onReceive appended. */
  function LifecycleExclude(exclude: string): string {
    Join(RubySplit(exclude, ",") + ["onCreate", "onReceive"], ",")
  }

  /** The hash shared by the lifecycle and direct-only requests; its class, name and
      template are filled in per request. */
  function SharedRequest(bp: BatchParams): Params {
    Params(None, None, "", Some("org.ruboto"), None, Some(bp.methodBase), Some(bp.methodInclude),
      Some(LifecycleExclude(bp.methodExclude)), Some(bp.implements), Some(bp.force))
  }

  /** The generation request for one catalogue entry. */
  function Request(c: Catalogue, qualified: string, bp: BatchParams): (q: Params)
    ensures q.klass == Some(qualified) && q.name == RubotoName(qualified)
  {
    match c
    case Listeners =>
      Params(Some(qualified), None, RubotoName(qualified), Some("org.ruboto.callbacks"),
        None, None, None, None, None, None)
    case Lifecycle =>
      SharedRequest(bp).(
        template := Some(if SimpleName(qualified) == Some("View") then "InheritingClass" else RubotoName(qualified)),
        klass := Some(qualified), name := RubotoName(qualified))
    case DirectOnly =>
      SharedRequest(bp).(template := Some("RubotoActivity"), klass := Some(qualified), name := RubotoName(qualified))
  }

  /** The requests for the selected entries of `names`, in order. */
  function Picked(c: Catalogue, names: seq<string>, bp: BatchParams): seq<Params>
    decreases |names|
  {
    if names == [] then []
    else
      var last := names[|names| - 1];
      Picked(c, names[..|names| - 1], bp) + (if Selected(c, bp.selection, last) then [Request(c, last, bp)] else [])
  }

  /** Picking from a concatenation is picking from each part. */
  lemma {:induction false} PickedAppend(c: Catalogue, a: seq<string>, b: seq<string>, bp: BatchParams)
    ensures Picked(c, a + b, bp) == Picked(c, a, bp) + Picked(c, b, bp)
    decreases |b|
  {
    if b == [] {
      assert a + b == a;
    } else {
      var init := b[..|b| - 1];
      assert (a + b)[..|a + b| - 1] == a + init;
      PickedAppend(c, a, init, bp);
    }
  }

  /** The requests generate_core_classes makes, in order. */
  function CoreRequests(bp: BatchParams): seq<Params> {
    var listeners := Picked(Listeners, Members(Listeners), bp);
    var lifecycle := Picked(Lifecycle, Members(Lifecycle), bp);
    var direct := Picked(DirectOnly, Members(DirectOnly), bp);
    listeners + lifecycle + direct
  }

  /** Runs a list of outcomes in order: the values of all of them, or the first error. */
  function Collect<T, E>(rs: seq<Result<T, E>>): Result<seq<T>, E>
    decreases |rs|
  {
    if rs == [] then Ok([])
    else
      match Collect(rs[..|rs| - 1])
      case Err(e) => Err(e)
      case Ok(done) =>
        match rs[|rs| - 1]
        case Err(e) => Err(e)
        case Ok(v) => Ok(done + [v])
  }

  /** Once a prefix has failed, nothing after it changes the result. */
  lemma {:induction false} CollectAbortsPrefix<T, E>(a: seq<Result<T, E>>, b: seq<Result<T, E>>)
    requires Collect(a).Err?
    ensures Collect(a + b) == Collect(a)
    decreases |b|
  {
    if b == [] {
      assert a + b == a;
    } else {
      assert (a + b)[..|a + b| - 1] == a + b[..|b| - 1];
      CollectAbortsPrefix(a, b[..|b| - 1]);
    }
  }

  /** Collecting succeeds exactly when every outcome does, and then gives their values in order. */
  lemma {:induction false} CollectAllOk<T, E>(rs: seq<Result<T, E>>)
    ensures Collect(rs).Ok? <==> forall k :: 0 <= k < |rs| ==> rs[k].Ok?
    ensures Collect(rs).Ok? ==>
      |Collect(rs).value| == |rs| && forall k :: 0 <= k < |rs| ==> Collect(rs).value[k] == rs[k].value
    decreases |rs|
  {
    if rs != [] {
      var init := rs[..|rs| - 1];
      CollectAllOk(init);
      assert forall k :: 0 <= k < |init| ==> init[k] == rs[k];
    }
  }

  /** A failed collection reports the first error, everything before it having succeeded. */
  lemma {:induction false} CollectFirstError<T, E>(rs: seq<Result<T, E>>)
    requires Collect(rs).Err?
    ensures exists k :: 0 <= k < |rs| && rs[k] == Err(Collect(rs).error)
                        && forall j :: 0 <= j < k ==> rs[j].Ok?
    decreases |rs|
  {
    var init := rs[..|rs| - 1];
    assert forall k :: 0 <= k < |init| ==> init[k] == rs[k];
    if Collect(init).Err? {
      CollectFirstError(init);
    } else {
      CollectAllOk(init);
    }
  }

  /** How one request turns into a generated file or an abort. */
  type Runner = Params -> Result<Generated, Error>

  /** The outcome of each request on its own. */
  function Outcomes(run: Runner, reqs: seq<Params>): (r: seq<Result<Generated, Error>>)
    ensures |r| == |reqs|
  {
    seq(|reqs|, k requires 0 <= k < |reqs| => run(reqs[k]))
  }

  /** The requests run in order; the first abort ends the batch. */
  function RunAll(run: Runner, reqs: seq<Params>): Result<seq<Generated>, Error> {
    Collect(Outcomes(run, reqs))
  }

  /** generate_subclass_or_interface as a runner. */
  function Generator(env: Env): Runner {
    p => Generation(env, p)
  }

  /** `run` behaves as generate_subclass_or_interface does in `env`. */
  ghost predicate Generates(env: Env, run: Runner) {
    forall p {:trigger Generation(env, p)} :: run(p) == Generation(env, p)
  }

  /** Running one more request after a prefix. */
  lemma RunAllSnoc(run: Runner, done: seq<Params>, req: Params)
    ensures RunAll(run, done + [req]) == match RunAll(run, done)
      case Err(e) => Err(e)
      case Ok(gs) => (match run(req) case Err(e) => Err(e) case Ok(g) => Ok(gs + [g]))
  {
    var rs := Outcomes(run, done + [req]);
    assert rs == Outcomes(run, done) + [run(req)];
    assert rs[..|rs| - 1] == Outcomes(run, done);
  }

  /** Once a prefix of the batch aborts, nothing after it runs. */
  lemma RunAllAbortsPrefix(run: Runner, a: seq<Params>, b: seq<Params>)
    requires RunAll(run, a).Err?
    ensures RunAll(run, a + b) == RunAll(run, a)
  {
    assert Outcomes(run, a + b) == Outcomes(run, a) + Outcomes(run, b);
    CollectAbortsPrefix(Outcomes(run, a), Outcomes(run, b));
  }

  /** The batch succeeds exactly when every request does, and then yields their
      outputs in order; otherwise it reports the error of the first request that
      aborts, all requests before it having succeeded. */
  lemma RunAllFirstError(run: Runner, reqs: seq<Params>)
    ensures RunAll(run, reqs).Ok? <==> forall k :: 0 <= k < |reqs| ==> run(reqs[k]).Ok?
    ensures RunAll(run, reqs).Ok? ==>
      |RunAll(run, reqs).value| == |reqs|
      && forall k :: 0 <= k < |reqs| ==> RunAll(run, reqs).value[k] == run(reqs[k]).value
    ensures RunAll(run, reqs).Err? ==>
      exists k :: 0 <= k < |reqs| && run(reqs[k]) == Err(RunAll(run, reqs).error)
                  && forall j :: 0 <= j < k ==> run(reqs[j]).Ok?
  {
    var rs := Outcomes(run, reqs);
    assert forall k :: 0 <= k < |reqs| ==> rs[k] == run(reqs[k]);
    CollectAllOk(rs);
    if Collect(rs).Err? {
      CollectFirstError(rs);
      var k :| 0 <= k < |rs| && rs[k] == Err(Collect(rs).error) && forall j :: 0 <= j < k ==> rs[j].Ok?;
      assert rs[k] == run(reqs[k]);
    }
  }

  /** One more catalogue entry: picked when selected. */
  lemma PickedStep(c: Catalogue, names: seq<string>, i: nat, bp: BatchParams)
    requires i < |names|
    ensures Picked(c, names[..i + 1], bp) == Picked(c, names[..i], bp)
      + (if Selected(c, bp.selection, names[i]) then [Request(c, names[i], bp)] else [])
  {
    assert names[..i + 1][..i] == names[..i];
  }

  /** The requests of a catalogue around a selected entry `i`. */
  lemma PickedAround(c: Catalogue, names: seq<string>, i: nat, bp: BatchParams)
    requires i < |names| && Selected(c, bp.selection, names[i])
    ensures Picked(c, names, bp)
      == Picked(c, names[..i], bp) + [Request(c, names[i], bp)] + Picked(c, names[i + 1..], bp)
  {
    PickedStep(c, names, i, bp);
    PickedAppend(c, names[..i + 1], names[i + 1..], bp);
    assert names[..i + 1] + names[i + 1..] == names;
  }

  /** An entry that aborts ends the catalogue loop and the batch with its error. */
  lemma CatalogueAborts(run: Runner, bp: BatchParams, c: Catalogue, names: seq<string>, i: nat,
                        prior: seq<Params>, done: seq<Params>, req: Params)
    requires i < |names|
    requires done == prior + Picked(c, names[..i], bp)
    requires Selected(c, bp.selection, names[i]) && req == Request(c, names[i], bp)
    requires RunAll(run, done + [req]).Err?
    ensures RunAll(run, prior + Picked(c, names, bp)) == RunAll(run, done + [req])
  {
    PickedAround(c, names, i, bp);
    AppendRegroup(prior, Picked(c, names[..i], bp), req, Picked(c, names[i + 1..], bp));
    RunAllAbortsPrefix(run, done + [req], Picked(c, names[i + 1..], bp));
  }

  /** Generates one more request of a batch that has succeeded so far. */
  method RunNext(env: Env, ghost run: Runner, ghost done: seq<Params>, acc: seq<Generated>, req: Params)
    returns (r: Result<seq<Generated>, Error>)
    requires Generates(env, run)
    requires RunAll(run, done) == Ok(acc)
    ensures r == RunAll(run, done + [req])
  {
    var g := GenerateSubclassOrInterface(env, req);
    RunAllSnoc(run, done, req);
    if g.Err? {
      return Err(g.error);
    }
    r := Ok(acc + [g.value]);
  }

  /** One catalogue loop of generate_core_classes over the entries `names` of `c`,
      continuing a batch that has so far produced `outs` for the requests `prior`. */
  method RunCatalogue(env: Env, ghost run: Runner, bp: BatchParams, c: Catalogue, names: seq<string>,
                      ghost prior: seq<Params>, outs: seq<Generated>)
    returns (r: Result<seq<Generated>, Error>)
    requires Generates(env, run)
    requires RunAll(run, prior) == Ok(outs)
    ensures r == RunAll(run, prior + Picked(c, names, bp))
  {
    var acc := outs;
    ghost var done := prior;
    var i := 0;
    assert names[..0] == [] && prior + [] == prior;
    while i < |names|
      invariant 0 <= i <= |names|
      invariant done == prior + Picked(c, names[..i], bp)
      invariant RunAll(run, done) == Ok(acc)
    {
      var q := names[i];
      PickedStep(c, names, i, bp);
      ghost var front := Picked(c, names[..i], bp);
      if Selected(c, bp.selection, q) {
        var req := Request(c, q, bp);
        assert Picked(c, names[..i + 1], bp) == front + [req];
        AppendAssoc(prior, front, [req]);
        var next := RunNext(env, run, done, acc, req);
        if next.Err? {
          CatalogueAborts(run, bp, c, names, i, prior, done, req);
          return next;
        }
        acc := next.value;
        done := done + [req];
      } else {
        assert Picked(c, names[..i + 1], bp) == front;
      }
      i := i + 1;
    }
    assert names[..i] == names;
    r := Ok(acc);
  }

  /** generate_core_classes: the listeners, then the lifecycle classes, then the
      direct-only activities, each generated if selected; any abort ends the batch. */
  method GenerateCoreClasses(env: Env, bp: BatchParams) returns (r: Result<seq<Generated>, Error>)
    ensures r == RunAll(Generator(env), CoreRequests(bp))
  {
    ghost var run := Generator(env);
    ghost var listeners := Picked(Listeners, Members(Listeners), bp);
    ghost var lifecycle := Picked(Lifecycle, Members(Lifecycle), bp);
    ghost var direct := Picked(DirectOnly, Members(DirectOnly), bp);
    assert [] + listeners == listeners;
    r := RunCatalogue(env, run, bp, Listeners, Members(Listeners), [], []);
    if r.Err? {
      RunAllAbortsPrefix(run, listeners, lifecycle + direct);
      AppendAssoc(listeners, lifecycle, direct);
      return;
    }
    r := RunCatalogue(env, run, bp, Lifecycle, Members(Lifecycle), listeners, r.value);
    if r.Err? {
      RunAllAbortsPrefix(run, listeners + lifecycle, direct);
      return;
    }
    r := RunCatalogue(env, run, bp, DirectOnly, Members(DirectOnly), listeners + lifecycle, r.value);
  }

  /** The lifecycle classes exclude the caller's methods and always onCreate and onReceive. */
  lemma LifecycleExcludesHooks(exclude: string)
    ensures RubySplit(LifecycleExclude(exclude), ",") == RubySplit(exclude, ",") + ["onCreate", "onReceive"]
  {
    var fields := RubySplit(exclude, ",") + ["onCreate", "onReceive"];
    RubySplitFieldsFree(exclude, ',');
    assert ',' !in "onCreate" && ',' !in "onReceive";
    RubySplitJoin(fields, ',');
  }
}
