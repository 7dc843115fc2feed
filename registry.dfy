/**
 * The component registry: the list of registered component classes, the
 * name-to-class table built from it, and the named pipeline templates, with the
 * validity conditions the test suite checks of them.
 */
module Registry {
  import opened Common

  /** The lifecycle stages whose arguments the soundness check covers. */
  datatype Stage = PipelineInit | Train | Process

  /**
   * Static metadata of one component class: its unique `name`, the context keys
   * it provides per stage (`context_provides`), the parameter names each stage
   * method declares, and the packages it needs to be importable.
   */
  datatype Descriptor = Descriptor(
    name: string,
    contextProvides: map<Stage, seq<string>>,
    stageArgs: map<Stage, seq<string>>,
    requirements: seq<string>)
  {
    /** `context_provides.get(stage, [])` */
    function Provides(stage: Stage): seq<string>
    {
      GetOr(contextProvides, stage, [])
    }

    /** The parameter names of the stage method (`pipeline_init_args()`, `train_args()`, `process_args()`). */
    function Args(stage: Stage): seq<string>
    {
      GetOr(stageArgs, stage, [])
    }
  }

  /** `component_classes`, `registered_pipeline_templates` */
  datatype Catalogue = Catalogue(classes: seq<Descriptor>, templates: map<string, seq<string>>)

  /** The name of the template that must list every component. */
  const AllComponents: string := "all_components"

  /** `[cls.name for cls in component_classes]` */
  function Names(classes: seq<Descriptor>): seq<string>
  {
    seq(|classes|, i requires 0 <= i < |classes| => classes[i].name)
  }

  /** `list.count(x)` */
  function Count(s: seq<string>, x: string): nat
  {
    if s == [] then 0 else (if s[0] == x then 1 else 0) + Count(s[1..], x)
  }

  /** No two registered classes share a name. */
  predicate UniqueNames(classes: seq<Descriptor>)
  {
    forall i, j :: 0 <= i < j < |classes| ==> classes[i].name != classes[j].name
  }

  lemma {:induction false} CountZeroIffAbsent(s: seq<string>, x: string)
    ensures Count(s, x) == 0 <==> x !in s
  {
    if s != [] {
      CountZeroIffAbsent(s[1..], x);
      assert x in s <==> x == s[0] || x in s[1..];
    }
  }

  /** A sequence has no repeated element exactly when each element occurs once. */
  lemma {:induction false} DistinctIffCountsOne(s: seq<string>)
    ensures (forall i, j :: 0 <= i < j < |s| ==> s[i] != s[j]) <==> (forall k :: 0 <= k < |s| ==> Count(s, s[k]) == 1)
  {
    if s != [] {
      var t := s[1..];
      DistinctIffCountsOne(t);
      CountZeroIffAbsent(t, s[0]);
      if forall i, j :: 0 <= i < j < |s| ==> s[i] != s[j] {
        forall k | 0 <= k < |s| ensures Count(s, s[k]) == 1 {
          if k > 0 {
            assert s[k] == t[k - 1];
            assert forall i, j :: 0 <= i < j < |t| ==> t[i] != t[j] by {
              forall i, j | 0 <= i < j < |t| ensures t[i] != t[j] {
                assert t[i] == s[i + 1] && t[j] == s[j + 1];
              }
            }
          } else {
            assert s[0] !in t by {
              forall i | 0 <= i < |t| ensures t[i] != s[0] {
                assert t[i] == s[i + 1];
              }
            }
          }
        }
      }
      if forall k :: 0 <= k < |s| ==> Count(s, s[k]) == 1 {
        assert Count(s, s[0]) == 1;
        assert s[0] !in t;
        forall k | 0 <= k < |t| ensures Count(t, t[k]) == 1 {
          assert Count(s, s[k + 1]) == 1;
          assert s[k + 1] == t[k];
          assert t[k] != s[0];
        }
        forall i, j | 0 <= i < j < |s| ensures s[i] != s[j] {
          if i == 0 {
            assert s[j] == t[j - 1];
          } else {
            assert s[i] == t[i - 1] && s[j] == t[j - 1];
          }
        }
      }
    }
  }

  /**
   * Component names are unique exactly when every class's name occurs once in
   * the list of all names.
   */
  lemma UniqueNamesIffCountedOnce(classes: seq<Descriptor>)
    ensures UniqueNames(classes) <==> forall k :: 0 <= k < |classes| ==> Count(Names(classes), classes[k].name) == 1
  {
    var names := Names(classes);
    DistinctIffCountsOne(names);
    assert forall k :: 0 <= k < |classes| ==> names[k] == classes[k].name;
  }

  /** `registered_components = {c.name: c for c in component_classes}`. */
  function ComponentMap(classes: seq<Descriptor>): (m: map<string, Descriptor>)
    ensures forall n :: n in m <==> n in Names(classes)
    ensures forall n :: n in m ==> m[n] in classes && m[n].name == n
  {
    if classes == [] then map[]
    else
      var init := classes[..|classes| - 1];
      var last := classes[|classes| - 1];
      assert forall n :: n in Names(classes) <==> n in Names(init) || n == last.name by {
        assert Names(classes) == Names(init) + [last.name];
      }
      ComponentMap(init)[last.name := last]
  }

  /**
   * As in the dict comprehension, a later class with the same name overwrites
   * an earlier one: the table holds the last class registered under each name.
   */
  lemma {:induction false} LastClassWins(classes: seq<Descriptor>, k: nat)
    requires k < |classes|
    requires forall j :: k < j < |classes| ==> classes[j].name != classes[k].name
    ensures classes[k].name in ComponentMap(classes) && ComponentMap(classes)[classes[k].name] == classes[k]
  {
    var init := classes[..|classes| - 1];
    if k < |classes| - 1 {
      assert init[k] == classes[k];
      forall j | k < j < |init| ensures init[j].name != init[k].name {
        assert init[j] == classes[j];
      }
      LastClassWins(init, k);
    }
  }

  /** With unique names, looking a class's name up in the table finds that class. */
  lemma LookupFindsClass(classes: seq<Descriptor>, k: nat)
    requires UniqueNames(classes)
    requires k < |classes|
    ensures classes[k].name in ComponentMap(classes)
    ensures ComponentMap(classes)[classes[k].name] == classes[k]
  {
    var m := ComponentMap(classes);
    var n := classes[k].name;
    assert Names(classes)[k] == n;
    var d := m[n];
    var j :| 0 <= j < |classes| && classes[j] == d;
    assert classes[j].name == n;
  }

  /** `name in registered_components`. */
  predicate Registered(reg: Catalogue, name: string)
  {
    name in ComponentMap(reg.classes)
  }

  /** The component table entry for `name`, or nothing for an unknown name. */
  function Lookup(reg: Catalogue, name: string): (d: Option<Descriptor>)
    ensures d.Some? <==> exists k :: 0 <= k < |reg.classes| && reg.classes[k].name == name
    ensures d.Some? ==> d.value in reg.classes && d.value.name == name
  {
    var m := ComponentMap(reg.classes);
    assert forall k :: 0 <= k < |reg.classes| ==> Names(reg.classes)[k] == reg.classes[k].name;
    if name in m then Some(m[name]) else None
  }

  /** The names of `template` that are not registered. */
  function UnknownNames(template: seq<string>, known: map<string, Descriptor>): (bad: seq<string>)
    ensures forall n :: n in bad <==> n in template && n !in known
    ensures bad == [] <==> forall n :: n in template ==> n in known
  {
    if template == [] then []
    else
      var rest := UnknownNames(template[1..], known);
      assert forall n :: n in template <==> n == template[0] || n in template[1..];
      if template[0] in known then rest else [template[0]] + rest
  }

  /** The names of registered classes missing from `template`. */
  function MissingNames(classes: seq<Descriptor>, template: seq<string>): (bad: seq<string>)
    ensures forall n :: n in bad <==> n in Names(classes) && n !in template
    ensures bad == [] <==> forall k :: 0 <= k < |classes| ==> classes[k].name in template
  {
    if classes == [] then []
    else
      var rest := MissingNames(classes[1..], template);
      assert forall n :: n in Names(classes) <==> n == classes[0].name || n in Names(classes[1..]) by {
        assert Names(classes) == [classes[0].name] + Names(classes[1..]);
      }
      if classes[0].name in template then rest else [classes[0].name] + rest
  }

  /** Every component named in every template is registered. */
  predicate TemplatesKnown(reg: Catalogue)
  {
    forall t, c :: t in reg.templates && c in reg.templates[t] ==> Registered(reg, c)
  }

  /** The `all_components` template exists and lists every registered class's name. */
  predicate AllComponentsCovered(reg: Catalogue)
  {
    AllComponents in reg.templates && forall k :: 0 <= k < |reg.classes| ==> reg.classes[k].name in reg.templates[AllComponents]
  }

  /** The templates are valid exactly when `UnknownNames` reports no unknown name in any of them. */
  lemma TemplatesKnownIffNoUnknownNames(reg: Catalogue)
    ensures TemplatesKnown(reg) <==> forall t :: t in reg.templates ==> UnknownNames(reg.templates[t], ComponentMap(reg.classes)) == []
  {
    var known := ComponentMap(reg.classes);
    if TemplatesKnown(reg) {
      forall t | t in reg.templates ensures UnknownNames(reg.templates[t], known) == [] {
        assert forall n :: n in reg.templates[t] ==> Registered(reg, n);
      }
    }
  }

  /** The `all_components` template is complete exactly when `MissingNames` reports no class missing from it. */
  lemma AllComponentsCoveredIffNoneMissing(reg: Catalogue)
    requires AllComponents in reg.templates
    ensures AllComponentsCovered(reg) <==> MissingNames(reg.classes, reg.templates[AllComponents]) == []
  {
  }
}
