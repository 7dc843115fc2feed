/**
 * Dependency availability: which of a component's required packages cannot be
 * imported. Whether a package imports is an environment question, so it is
 * passed in as the predicate `resolves`.
 */
module Dependencies {

  /**
   * `find_unavailable_packages(names)`: the set of names that do not resolve;
   * duplicates collapse, and a failed resolution is a result, not an error.
   */
  function FindUnavailablePackages(packages: seq<string>, resolves: string -> bool): (failed: set<string>)
    ensures forall p :: p in failed <==> p in packages && !resolves(p)
    ensures |failed| <= |packages|
  {
    if packages == [] then {}
    else
      var rest := FindUnavailablePackages(packages[1..], resolves);
      assert forall p :: p in packages <==> p == packages[0] || p in packages[1..];
      if resolves(packages[0]) then rest else rest + {packages[0]}
  }

  /** The result only depends on the set of names asked about, not on their order or repetition. */
  lemma UnavailableDependsOnlyOnNames(a: seq<string>, b: seq<string>, resolves: string -> bool)
    requires forall p :: p in a <==> p in b
    ensures FindUnavailablePackages(a, resolves) == FindUnavailablePackages(b, resolves)
  {
  }

  /**
   * With only `io` importable, `["my_made_up_package_name", "io", "foo_bar", "foo_bar"]`
   * yields `{"my_made_up_package_name", "foo_bar"}`.
   */
  lemma UnavailableExample()
    ensures FindUnavailablePackages(["my_made_up_package_name", "io", "foo_bar", "foo_bar"], p => p == "io")
            == {"my_made_up_package_name", "foo_bar"}
  {
    var names := ["my_made_up_package_name", "io", "foo_bar", "foo_bar"];
    var failed := FindUnavailablePackages(names, p => p == "io");
    assert names[0] in failed && names[2] in failed;
    assert forall p :: p in failed ==> p in names && p != "io";
  }
}
