/**
 * The component builder: `create_component` and `load_component` resolve a
 * component name against the registry, check that the component's packages
 * are importable, and yield an instance; an absent name yields the null result.
 */
module Builder {
  import opened Common
  import opened Registry
  import opened Dependencies

  /** Errors raised while building a component, each naming what was missing. */
  datatype BuildError =
    | UnknownComponent(name: string)
    | MissingDependencies(component: string, packages: set<string>)

  /**
   * A component instance: its class and, for a loaded component, the state
   * restored from an earlier training run.
   */
  datatype Instance<S> = Instance(descriptor: Descriptor, restored: Option<S>)

  /**
   * The resolution path shared by create and load: name validation, then
   * dependency validation.
   */
  function ResolveComponent(reg: Catalogue, name: string, resolves: string -> bool): (r: Result<Descriptor, BuildError>)
    ensures r == Err(UnknownComponent(name)) <==> forall k :: 0 <= k < |reg.classes| ==> reg.classes[k].name != name
    ensures r.Err? ==> (r.error.UnknownComponent? <==> !Registered(reg, name))
    ensures r.Err? && r.error.UnknownComponent? ==> r.error.name == name
    ensures Registered(reg, name) && (exists p :: p in Lookup(reg, name).value.requirements && !resolves(p)) ==>
              r.Err? && r.error.MissingDependencies?
    ensures r.Ok? ==> r.value in reg.classes && r.value.name == name
    ensures r.Ok? ==> forall p :: p in r.value.requirements ==> resolves(p)
    ensures Lookup(reg, name).Some? && (forall p :: p in Lookup(reg, name).value.requirements ==> resolves(p)) ==>
              r == Ok(Lookup(reg, name).value)
    ensures r.Err? && r.error.MissingDependencies? ==>
              && r.error.component == name
              && r.error.packages != {}
              && exists d :: d in reg.classes && d.name == name &&
                   forall p :: p in r.error.packages <==> p in d.requirements && !resolves(p)
  {
    match Lookup(reg, name)
    case None => Err(UnknownComponent(name))
    case Some(d) =>
      var unavailable := FindUnavailablePackages(d.requirements, resolves);
      if unavailable == {} then Ok(d)
      else Err(MissingDependencies(name, unavailable))
  }

  /** `create_component(name, config)`: `None` for no name, otherwise a fresh instance or an error. */
  function CreateComponent<S>(reg: Catalogue, name: Option<string>, resolves: string -> bool)
    : (r: Result<Option<Instance<S>>, BuildError>)
    ensures name.None? ==> r == Ok(None)
    ensures name.Some? && !Registered(reg, name.value) ==> r == Err(UnknownComponent(name.value))
    ensures name.Some? ==> (r.Ok? <==> ResolveComponent(reg, name.value, resolves).Ok?)
    ensures name.Some? && r.Err? ==> r.error == ResolveComponent(reg, name.value, resolves).error
    ensures name.Some? && r.Ok? ==>
              && r.value.Some?
              && r.value.value.descriptor in reg.classes
              && r.value.value.descriptor.name == name.value
              && r.value.value.restored == None
    ensures name.Some? && Lookup(reg, name.value).Some? &&
            (forall p :: p in Lookup(reg, name.value).value.requirements ==> resolves(p)) ==>
              r == Ok(Some(Instance(Lookup(reg, name.value).value, None)))
    ensures name.Some? && r.Err? && r.error.MissingDependencies? ==>
              && r.error.component == name.value
              && r.error.packages != {}
              && exists d :: d in reg.classes && d.name == name.value &&
                   forall p :: p in r.error.packages <==> p in d.requirements && !resolves(p)
  {
    match name
    case None => Ok(None)
    case Some(n) =>
      match ResolveComponent(reg, n, resolves)
      case Ok(d) => Ok(Some(Instance(d, None)))
      case Err(e) => Err(e)
  }

  /**
   * `load_component(name, config, cached, metadata)`: the same resolution as
   * `create_component`, with the persisted state handed to the instance.
   */
  function LoadComponent<S>(reg: Catalogue, name: Option<string>, persisted: S, resolves: string -> bool)
    : (r: Result<Option<Instance<S>>, BuildError>)
    ensures name.None? ==> r == Ok(None)
    ensures name.Some? && !Registered(reg, name.value) ==> r == Err(UnknownComponent(name.value))
    ensures name.Some? ==> (r.Ok? <==> ResolveComponent(reg, name.value, resolves).Ok?)
    ensures name.Some? && r.Err? ==> r.error == ResolveComponent(reg, name.value, resolves).error
    ensures name.Some? && r.Ok? ==>
              && r.value.Some?
              && r.value.value.descriptor in reg.classes
              && r.value.value.descriptor.name == name.value
              && r.value.value.restored == Some(persisted)
    ensures name.Some? && Lookup(reg, name.value).Some? &&
            (forall p :: p in Lookup(reg, name.value).value.requirements ==> resolves(p)) ==>
              r == Ok(Some(Instance(Lookup(reg, name.value).value, Some(persisted))))
    ensures name.Some? && r.Err? && r.error.MissingDependencies? ==>
              && r.error.component == name.value
              && r.error.packages != {}
              && exists d :: d in reg.classes && d.name == name.value &&
                   forall p :: p in r.error.packages <==> p in d.requirements && !resolves(p)
  {
    match name
    case None => Ok(None)
    case Some(n) =>
      match ResolveComponent(reg, n, resolves)
      case Ok(d) => Ok(Some(Instance(d, Some(persisted))))
      case Err(e) => Err(e)
  }

  /**
   * Creating and loading accept and reject exactly the same names, and a
   * loaded instance is the created one plus its restored state.
   */
  lemma CreateAndLoadAgree<S>(reg: Catalogue, name: Option<string>, persisted: S, resolves: string -> bool)
    ensures CreateComponent<S>(reg, name, resolves).Ok? <==> LoadComponent(reg, name, persisted, resolves).Ok?
    ensures CreateComponent<S>(reg, name, resolves).Err? ==>
              CreateComponent<S>(reg, name, resolves).error == LoadComponent(reg, name, persisted, resolves).error
    ensures CreateComponent<S>(reg, name, resolves).Ok? && CreateComponent<S>(reg, name, resolves).value.Some? ==>
              LoadComponent(reg, name, persisted, resolves).value ==
                Some(Instance(CreateComponent<S>(reg, name, resolves).value.value.descriptor, Some(persisted)))
  {
  }

  /** With unique names, creating a registered class with importable packages yields that very class. */
  lemma CreateFindsRegisteredClass<S>(reg: Catalogue, k: nat, resolves: string -> bool)
    requires UniqueNames(reg.classes)
    requires k < |reg.classes|
    requires forall p :: p in reg.classes[k].requirements ==> resolves(p)
    ensures CreateComponent<S>(reg, Some(reg.classes[k].name), resolves) == Ok(Some(Instance(reg.classes[k], None)))
  {
    LookupFindsClass(reg.classes, k);
    assert FindUnavailablePackages(reg.classes[k].requirements, resolves) == {};
  }

  /** `create_component("my_made_up_componment", ...)` and its `load_component` twin fail as unknown. */
  lemma UnknownNameRejected<S>(reg: Catalogue, name: string, persisted: S, resolves: string -> bool)
    requires !Registered(reg, name)
    ensures CreateComponent<S>(reg, Some(name), resolves) == Err(UnknownComponent(name))
    ensures LoadComponent(reg, Some(name), persisted, resolves) == Err(UnknownComponent(name))
  {
  }
}
