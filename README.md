# Component resolution and validation layer of rasa_nlu

This project models, in Dafny, the layer of rasa_nlu that composes NLP
components into a pipeline by name and checks, before any component runs,
that the pipeline can be built and fed:

- the **registry** of component classes (`registry.component_classes`), the
  name-to-class table built from it (`registry.registered_components`) and the
  named pipeline templates (`registry.registered_pipeline_templates`), with the
  validity conditions on them: unique names, templates naming registered
  components only, and an `all_components` template listing every class;
- the **argument resolver** `fill_args(required, context, config)`, which binds
  each required parameter name from the pipeline context, else from the
  configuration, or fails with `MissingArgumentError` naming exactly the names
  found in neither;
- the **lifecycle soundness check**, which builds, per stage, a superset
  context from the stage's base key (`training_data` for train, `text` for
  process) and the keys every registered class provides during `pipeline_init`
  and that stage, and fills each class's declared arguments from it;
- the **dependency check** `find_unavailable_packages`, returning the set of
  package names that do not import;
- the **requirements-manifest reader** `_read_dev_requirements`, mapping each
  `# name` group to its install names in order;
- the **component builder** `create_component` / `load_component`: an absent
  name gives the null result, an unregistered name fails as an unknown
  component.

The functions modelled here are defined in `rasa_nlu/components.py` and
`rasa_nlu/registry.py`; their behaviour is modelled from the assertions and
docstrings of the test module `_pytest/test_components.py` that exercises
them, together with the documented design of the component layer (precedence
of context over configuration, error kinds, the manifest format). Every
citation in the table below points into that test module.

Layout, one module per part:

- `common.dfy` (`Common`): `Option`, `Result`, `GetOr` (`dict.get` with a default).
- `arguments.dfy` (`Arguments`): `FillArgs` and `MissingArgumentError`.
- `registry.dfy` (`Registry`): `Stage`, `Descriptor`, `Catalogue` (the registered classes and templates), name uniqueness, the component table, template checks.
- `dependencies.dfy` (`Dependencies`): `FindUnavailablePackages`.
- `manifest.dfy` (`Manifest`): line splitting, stripping, `ReadDevRequirements` and its round trip.
- `builder.dfy` (`Builder`): `ResolveComponent`, `CreateComponent`, `LoadComponent`.
- `context.dfy` (`PipelineContext`): the superset-context construction (an imperative method with loops over a map) and the soundness check.

Modelling decisions:

- Context and configuration values are of an arbitrary type `V`; the
  placeholder `None` that the soundness check stores is the parameter `none`.
- Whether a package imports is the injected predicate `resolves`.
- A descriptor states its per-stage parameter names as data (`stageArgs`)
  instead of reading them from method signatures.
- The manifest is read from its text. A line is first stripped of surrounding
  spaces; a blank line is skipped; a line starting with `#` names a group (the
  rest of the line, stripped); any other line is an install name of the open
  group. A header that repeats a name reopens that group and appends to it; a
  header alone gives its name an empty list. An install name before any header
  fails with `OrphanPackage`, a header without a name with `UnnamedGroup`
  (the malformed-manifest error).

## Model

| member | source | states |
|---|---|---|
| `Arguments.FillArgs` | _pytest/test_components.py:112-123 | succeeds exactly when every required name is in the context or the configuration; then one value per name, in order, from the context if it has the name and otherwise from the configuration; on failure the error is non-empty and names exactly the required names found in neither mapping |
| `Arguments.GoodOneFromContext` | _pytest/test_components.py:112-116 | `fill_args(["good_one","bad_one"], {"good_one": 1}, {})` fails naming only `bad_one` |
| `Arguments.GoodOneFromConfig` | _pytest/test_components.py:119-123 | `fill_args(["good_one","bad_one"], {}, {"good_one": 1})` fails naming only `bad_one` |
| `Arguments.ContextThenConfig` | _pytest/test_components.py:60-61 | `a` from the context and `b` from the configuration fill `[1, 2]`; with both mappings empty the error names `a` and `b` |
| `Arguments.FillArgsMonotone` | _pytest/test_components.py:68-79 | a fill that succeeds in some context still succeeds, with full length, in any context holding more keys; so a component that can be filled in some pipeline also passes the superset check (necessity, not sufficiency) |
| `Registry.DistinctIffCountsOne` | _pytest/test_components.py:20-21 | a list of names has no repetition exactly when every element's count is one |
| `Registry.UniqueNamesIffCountedOnce` | _pytest/test_components.py:15-22 | no two registered classes share a name exactly when each class's name occurs once in the list of all names |
| `Registry.ComponentMap` | _pytest/test_components.py:30-32 | the name table holds exactly the registered names, and each maps to a registered class of that name |
| `Registry.LastClassWins` | _pytest/test_components.py:30-32 | a class that no later class shares its name with is the one the table holds under that name, so the last class registered under a name wins, as in the dict comprehension |
| `Registry.LookupFindsClass` | _pytest/test_components.py:17-18 | with unique names, looking up a class's name finds that very class |
| `Registry.Lookup` | _pytest/test_components.py:30-32 | a name is found exactly when some registered class has it, and what is found is such a class |
| `Registry.UnknownNames` | _pytest/test_components.py:25-32 | reports exactly the template entries that are not registered, and nothing exactly when every entry is registered |
| `Registry.MissingNames` | _pytest/test_components.py:35-41 | reports exactly the registered names absent from the template, and nothing exactly when every class's name is in it |
| `Registry.TemplatesKnownIffNoUnknownNames` | _pytest/test_components.py:25-32 | every component of every template is registered exactly when no template has an unknown name |
| `Registry.AllComponentsCoveredIffNoneMissing` | _pytest/test_components.py:35-41 | the `all_components` template lists every registered class exactly when no class is missing from it |
| `Dependencies.FindUnavailablePackages` | _pytest/test_components.py:126-128 | a name is in the result exactly when it is among the inputs and does not resolve; the set is no larger than the input list |
| `Dependencies.UnavailableDependsOnlyOnNames` | _pytest/test_components.py:126-128 | lists with the same names, in any order and with any repetition, give the same set |
| `Dependencies.UnavailableExample` | _pytest/test_components.py:126-128 | with only `io` importable, `["my_made_up_package_name","io","foo_bar","foo_bar"]` gives `{"my_made_up_package_name","foo_bar"}` |
| `Manifest.SplitJoin` | _pytest/test_components.py:137 | splitting the newline-joined lines gives back the lines |
| `Manifest.ReadDevRequirements` | _pytest/test_components.py:131-140 | every group name read is non-blank and stripped; every install name is non-blank, stripped and not a header |
| `Manifest.ParseKeepsState` | _pytest/test_components.py:131-140 | reading further lines keeps the groups well formed and never drops a group already read |
| `Manifest.ParsePackages` | _pytest/test_components.py:140 | install names after the open group's header are appended to it in their original order |
| `Manifest.ParseGroup` | _pytest/test_components.py:137-140 | a header for a new name followed by its install names adds exactly that group with those names |
| `Manifest.ParseGroups` | _pytest/test_components.py:137-140 | the lines of groups with distinct new names add exactly those groups |
| `Manifest.RoundTrip` | _pytest/test_components.py:131-140 | a manifest written from groups with distinct names reads back as the map from each name to its install names in order |
| `Manifest.SingleGroupRoundTrip` | _pytest/test_components.py:136-140 | `"# {}\n{}".format(name, "\n".join(installs))` reads back as `{name: installs}`, for any number of install names |
| `Manifest.ReadDevRequirementsExample` | _pytest/test_components.py:132-140 | the manifest of the test maps `my_made_up_package_name` to its two install names in order |
| `Manifest.OrphanPackageRejected` | _pytest/test_components.py:131-138 | a manifest whose first line is an install name (stripped, followed by a newline) fails with an error naming it |
| `Manifest.UnnamedGroupRejected` | _pytest/test_components.py:131-138 | a manifest whose first line is a bare `#` fails with the unnamed-group error |
| `Manifest.OrphanLineRejected` | _pytest/test_components.py:131-138 | at any point where no group is open, a line whose stripped text is not blank and not a header fails with an error naming that stripped text |
| `Manifest.UnnamedHeaderRejected` | _pytest/test_components.py:131-138 | a header with nothing but spaces after its `#` fails with the unnamed-group error, wherever it occurs and whatever was read before |
| `Manifest.BlankLinesSkipped` | _pytest/test_components.py:131-140 | any run of blank or all-space lines, anywhere, leaves the result unchanged |
| `Builder.ResolveComponent` | _pytest/test_components.py:143-152 | fails as unknown, naming the name, exactly when no class has it; success yields a registered class of that name whose packages all resolve, and a registered name with importable packages succeeds; an error is the unknown-component error, naming exactly this name, precisely when the name is not registered; a registered name with a package that does not import fails with the missing-dependencies error, which names the component and a non-empty set of exactly its unresolved packages |
| `Builder.CreateComponent` | _pytest/test_components.py:108-109 | no name gives the null result; an unregistered name fails as unknown, naming it; a name succeeds exactly when resolution does, and then yields a fresh instance, with no restored state, of a registered class of that name; a registered class whose packages all import is created; any error is exactly the resolution error, so a registered class with a package that does not import fails with missing dependencies, never as unknown; a dependency failure names the component and exactly its unresolved packages, a non-empty set |
| `Builder.LoadComponent` | _pytest/test_components.py:104-105 | no name gives the null result; an unregistered name fails as unknown, naming it; a name succeeds exactly when resolution does, and then yields an instance of a registered class of that name carrying the persisted state; a registered class whose packages all import is loaded; any error is exactly the resolution error, so a registered class with a package that does not import fails with missing dependencies, never as unknown; a dependency failure names the component and exactly its unresolved packages, a non-empty set |
| `Builder.CreateAndLoadAgree` | _pytest/test_components.py:143-152 | create and load accept and reject the same names with the same errors, and a loaded instance is the created one plus its state |
| `Builder.UnknownNameRejected` | _pytest/test_components.py:143-152 | an unregistered name fails with the unknown-component error naming it, for both create and load |
| `Builder.CreateFindsRegisteredClass` | _pytest/test_components.py:54 | with unique names, creating a registered class by its name, its packages importable, yields an instance of that class |
| `PipelineContext.InsertKeys` | _pytest/test_components.py:57-58 | afterwards the keys are the old ones plus the inserted ones; inserted keys hold the placeholder and every other entry is unchanged |
| `PipelineContext.SupersetContext` | _pytest/test_components.py:71-76 | the context built for a stage holds exactly its base key and the keys some registered class provides during `pipeline_init` or that stage, all bound to the placeholder |
| `PipelineContext.CheckArgumentsSatisfiable` | _pytest/test_components.py:64-79 | a class that cannot be created gives its build error; otherwise the fill succeeds exactly when each declared argument of the stage is in the superset context or the configuration, then with one value per argument, and otherwise reports exactly the uncovered arguments |
| `PipelineContext.SoundnessIffFillSucceeds` | _pytest/test_components.py:82-96 | over a superset context, filling succeeds for every registered class exactly when all their declared arguments are covered |
| `PipelineContext.LiveWithinSuperset` | _pytest/test_components.py:68-69 | the context a component sees in a live run of a pipeline of registered classes holds no key outside the superset |
| `PipelineContext.CheckNecessary` | _pytest/test_components.py:68-69 | a component whose arguments some live pipeline can fill passes the soundness check |
| `PipelineContext.CheckNotSufficient` | _pytest/test_components.py:69 | a consumer of a key provided during training passes the check, yet placed before its provider it lacks the key |

## Left out

- The environment probe of package importability: replaced by the predicate `resolves`.
- Reading the manifest file from disk, and the error for an absent file: the reader takes the file's text.
- Instantiating components, the instance cache keyed by name and configuration, and `Metadata`: the component implementations are not part of this model; an instance is its class plus any restored state.
- The check that every entity extractor takes `entities` (lines 99-101): it depends on a class hierarchy that is not part of this model.
- The `persist` stage: no test in `_pytest/test_components.py` reads its arguments or provides.
- The concrete components and the contents of the template catalogue: only the membership relations between them are modelled.
- The wording of error messages, and the closest known names an unknown-component message may suggest: errors are datatypes carrying the offending names.
- `Registry.AllComponentsCovered`: states that every class's name is in the `all_components` template, as the test asserts, not that it occurs there exactly once.
