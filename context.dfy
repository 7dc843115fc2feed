/**
 * Pipeline contexts and the static soundness check of the test suite: for a
 * stage, a superset context is built from the stage's base key and the keys
 * every registered class provides during `pipeline_init` and that stage; every
 * class's declared arguments for the stage must then be fillable from it.
 */
module PipelineContext {
  import opened Common
  import opened Registry
  import opened Arguments
  import opened Builder

  /** The keys a context starts with: `training_data` for train, `text` for process, none for init. */
  function BaseKeys(stage: Stage): seq<string>
  {
    match stage
    case PipelineInit => []
    case Train => ["training_data"]
    case Process => ["text"]
  }

  /** `c` contributes `k` to the superset for `stage`: among its `pipeline_init` keys or its keys for `stage`. */
  predicate ProvidedFor(c: Descriptor, stage: Stage, k: string)
  {
    k in c.Provides(PipelineInit) || k in c.Provides(stage)
  }

  /** `k` belongs to the superset context for `stage`: a base key, or provided by some registered class. */
  predicate InSuperset(classes: seq<Descriptor>, stage: Stage, k: string)
  {
    k in BaseKeys(stage) || exists i :: 0 <= i < |classes| && ProvidedFor(classes[i], stage, k)
  }

  /**
   * `for ctx_arg in keys: context_arguments[ctx_arg] = None`: every key is
   * bound to the placeholder; the other entries are left as they are.
   */
  method InsertKeys<V>(ctx: map<string, V>, keys: seq<string>, none: V) returns (r: map<string, V>)
    ensures forall k :: k in r <==> k in ctx || k in keys
    ensures forall k :: k in r ==> r[k] == if k in keys then none else ctx[k]
  {
    r := ctx;
    for l := 0 to |keys|
      invariant forall k :: k in r <==> k in ctx || k in keys[..l]
      invariant forall k :: k in r ==> r[k] == if k in keys[..l] then none else ctx[k]
    {
      assert keys[..l + 1] == keys[..l] + [keys[l]];
      r := r[keys[l] := none];
    }
    assert keys[..|keys|] == keys;
  }

  /**
   * The context of the soundness check for `stage`: exactly the stage's base
   * keys and the keys some registered class provides during `pipeline_init`
   * or `stage`, each bound to the placeholder `none`.
   */
  method SupersetContext<V>(classes: seq<Descriptor>, stage: Stage, none: V) returns (ctx: map<string, V>)
    ensures forall k :: k in ctx <==> InSuperset(classes, stage, k)
    ensures forall k :: k in ctx ==> ctx[k] == none
  {
    match stage {
      case PipelineInit => ctx := map[];
      case Train => ctx := map["training_data" := none];
      case Process => ctx := map["text" := none];
    }
    for i := 0 to |classes|
      invariant forall k :: k in ctx <==> k in BaseKeys(stage) || exists j :: 0 <= j < i && ProvidedFor(classes[j], stage, k)
      invariant forall k :: k in ctx ==> ctx[k] == none
    {
      ctx := InsertKeys(ctx, classes[i].Provides(PipelineInit), none);
      if stage != PipelineInit {
        ctx := InsertKeys(ctx, classes[i].Provides(stage), none);
      }
    }
  }

  /** Every argument `c` declares for `stage` is in the superset context or the configuration. */
  predicate ArgsCovered<V>(classes: seq<Descriptor>, c: Descriptor, stage: Stage, config: map<string, V>)
  {
    forall a :: a in c.Args(stage) ==> InSuperset(classes, stage, a) || a in config
  }

  /** Why the soundness check of one component fails: it cannot be built, or an argument is missing. */
  datatype CheckFailure = BuildFailed(build: BuildError) | ArgumentsMissing(missing: MissingArgumentError)

  /**
   * The soundness check of one component for one stage: create it by name,
   * build the superset context and fill its declared arguments from the
   * context and the configuration.
   */
  method CheckArgumentsSatisfiable<V>(reg: Catalogue, name: string, stage: Stage, config: map<string, V>, none: V,
                                      resolves: string -> bool)
    returns (filled: Result<seq<V>, CheckFailure>)
    ensures ResolveComponent(reg, name, resolves).Err? ==>
              filled == Err(BuildFailed(ResolveComponent(reg, name, resolves).error))
    ensures ResolveComponent(reg, name, resolves).Ok? ==>
              var args := ResolveComponent(reg, name, resolves).value.Args(stage);
              && (filled.Ok? <==> ArgsCovered(reg.classes, ResolveComponent(reg, name, resolves).value, stage, config))
              && (filled.Ok? ==> |filled.value| == |args|)
              && (filled.Err? ==> filled.error.ArgumentsMissing?)
              && (filled.Err? ==> forall n :: n in filled.error.missing.names <==>
                                    n in args && !InSuperset(reg.classes, stage, n) && n !in config)
  {
    var created := CreateComponent<()>(reg, Some(name), resolves);
    if created.Err? {
      return Err(BuildFailed(created.error));
    }
    var component := created.value.value.descriptor;
    var context := SupersetContext(reg.classes, stage, none);
    match FillArgs(component.Args(stage), context, config) {
      case Ok(values) => filled := Ok(values);
      case Err(e) => filled := Err(ArgumentsMissing(e));
    }
  }

  /**
   * Over a superset context, the soundness check passes for every registered
   * class exactly when every declared argument is covered.
   */
  lemma SoundnessIffFillSucceeds<V>(classes: seq<Descriptor>, stage: Stage, ctx: map<string, V>, config: map<string, V>)
    requires forall k :: k in ctx <==> InSuperset(classes, stage, k)
    ensures (forall k :: 0 <= k < |classes| ==> FillArgs(classes[k].Args(stage), ctx, config).Ok?) <==>
            (forall k :: 0 <= k < |classes| ==> ArgsCovered(classes, classes[k], stage, config))
  {
  }

  /**
   * The context seen by `pipeline[i]` in a live traversal of `stage`: the base
   * keys, the `pipeline_init` keys of the whole pipeline once initialisation is
   * over, and the keys the components before it provide in this stage.
   */
  predicate InLive(pipeline: seq<Descriptor>, stage: Stage, i: nat, k: string)
  {
    || k in BaseKeys(stage)
    || (stage != PipelineInit && exists j :: 0 <= j < |pipeline| && k in pipeline[j].Provides(PipelineInit))
    || exists j :: 0 <= j < i && j < |pipeline| && k in pipeline[j].Provides(stage)
  }

  /** A live context of a pipeline of registered classes never holds a key outside the superset. */
  lemma LiveWithinSuperset(classes: seq<Descriptor>, pipeline: seq<Descriptor>, stage: Stage, i: nat, k: string)
    requires forall j :: 0 <= j < |pipeline| ==> pipeline[j] in classes
    requires InLive(pipeline, stage, i, k)
    ensures InSuperset(classes, stage, k)
  {
    if k !in BaseKeys(stage) {
      var j :| 0 <= j < |pipeline| && (k in pipeline[j].Provides(PipelineInit) || k in pipeline[j].Provides(stage));
      var m :| 0 <= m < |classes| && classes[m] == pipeline[j];
      assert ProvidedFor(classes[m], stage, k);
    }
  }

  /**
   * The soundness check is necessary: a component whose arguments some live
   * pipeline of registered classes can fill passes it.
   */
  lemma CheckNecessary<V>(classes: seq<Descriptor>, pipeline: seq<Descriptor>, stage: Stage, i: nat,
                          live: map<string, V>, config: map<string, V>)
    requires forall j :: 0 <= j < |pipeline| ==> pipeline[j] in classes
    requires i < |pipeline|
    requires forall k :: k in live <==> InLive(pipeline, stage, i, k)
    requires FillArgs(pipeline[i].Args(stage), live, config).Ok?
    ensures ArgsCovered(classes, pipeline[i], stage, config)
  {
    forall a | a in pipeline[i].Args(stage) && a !in config ensures InSuperset(classes, stage, a) {
      LiveWithinSuperset(classes, pipeline, stage, i, a);
    }
  }

  /**
   * The check is not sufficient: a consumer of `x` passes it when some class
   * provides `x` during training, yet placed before that provider it has no
   * `x` in its live context.
   */
  lemma CheckNotSufficient()
    ensures var provider := Descriptor("provider", map[Train := ["x"]], map[], []);
            var consumer := Descriptor("consumer", map[], map[Train := ["x"]], []);
            && ArgsCovered<int>([provider, consumer], consumer, Train, map[])
            && !InLive([consumer, provider], Train, 0, "x")
  {
    var provider := Descriptor("provider", map[Train := ["x"]], map[], []);
    var consumer := Descriptor("consumer", map[], map[Train := ["x"]], []);
    assert ProvidedFor([provider, consumer][0], Train, "x");
  }
}
