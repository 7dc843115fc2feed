/**
 * The argument resolver `fill_args(required, context, config)`: every required
 * parameter name is looked up first in the pipeline context, then in the static
 * configuration; if some name is found in neither, the call fails with a
 * `MissingArgumentError` that names exactly those names.
 */
module Arguments {
  import opened Common

  /** `MissingArgumentError`, carrying the unsatisfiable names in the order they were required. */
  datatype MissingArgumentError = MissingArgumentError(names: seq<string>)

  /** A name can be bound when the context or the configuration holds it. */
  predicate Satisfiable<V>(name: string, context: map<string, V>, config: map<string, V>)
  {
    name in context || name in config
  }

  /**
   * One value per required name, at that name's position, with the context
   * taking precedence over the configuration; or an error naming every
   * unsatisfiable name and no satisfiable one.
   */
  function FillArgs<V>(required: seq<string>, context: map<string, V>, config: map<string, V>)
    : (r: Result<seq<V>, MissingArgumentError>)
    ensures r.Ok? <==> forall n :: n in required ==> Satisfiable(n, context, config)
    ensures r.Ok? ==> |r.value| == |required|
    ensures r.Ok? ==> forall i :: 0 <= i < |required| ==>
                        if required[i] in context then r.value[i] == context[required[i]]
                        else required[i] in config && r.value[i] == config[required[i]]
    ensures r.Err? ==> |r.error.names| > 0
    ensures r.Err? ==> forall n :: n in r.error.names <==> n in required && !Satisfiable(n, context, config)
  {
    if required == [] then Ok([])
    else
      var name := required[0];
      var rest := FillArgs(required[1..], context, config);
      assert forall n :: n in required <==> n == name || n in required[1..];
      if Satisfiable(name, context, config) then
        match rest
        case Ok(values) => Ok([if name in context then context[name] else config[name]] + values)
        case Err(e) => Err(e)
      else
        match rest
        case Ok(_) => Err(MissingArgumentError([name]))
        case Err(e) => Err(MissingArgumentError([name] + e.names))
  }

  /** A name known to the context stays satisfiable under any larger context. */
  lemma {:induction false} FillArgsMonotone<V>(required: seq<string>, small: map<string, V>, large: map<string, V>,
                                               config: map<string, V>)
    requires small.Keys <= large.Keys
    requires FillArgs(required, small, config).Ok?
    ensures FillArgs(required, large, config).Ok?
    ensures |FillArgs(required, large, config).value| == |required|
  {
  }

  /** `fill_args(["good_one", "bad_one"], {"good_one": 1}, {})` names only `bad_one`. */
  lemma GoodOneFromContext()
    ensures FillArgs(["good_one", "bad_one"], map["good_one" := 1], map[]) == Err(MissingArgumentError(["bad_one"]))
  {
  }

  /** `fill_args(["good_one", "bad_one"], {}, {"good_one": 1})` names only `bad_one`. */
  lemma GoodOneFromConfig()
    ensures FillArgs(["good_one", "bad_one"], map[], map["good_one" := 1]) == Err(MissingArgumentError(["bad_one"]))
  {
  }

  /** The context supplies `a`, the configuration `b`; nothing supplies both names of the empty case. */
  lemma ContextThenConfig()
    ensures FillArgs(["a", "b"], map["a" := 1], map["b" := 2]) == Ok([1, 2])
    ensures FillArgs<int>(["a", "b"], map[], map[]) == Err(MissingArgumentError(["a", "b"]))
  {
    var filled := FillArgs(["a", "b"], map["a" := 1], map["b" := 2]).value;
    assert filled == [1, 2];
    assert ["a", "b"][1..] == ["b"];
    assert FillArgs<int>(["b"], map[], map[]) == Err(MissingArgumentError(["b"]));
    assert ["a"] + ["b"] == ["a", "b"];
  }
}
