/**
 * The development-requirements manifest read by `_read_dev_requirements`: a
 * line starting with `#` names a logical requirement, and the lines after it,
 * up to the next such header, are the packages to install for it. The model
 * works on the file's text; opening and reading the file is not modelled.
 */
module Manifest {
  import opened Common

  /** Why a manifest cannot be read: a package line before any header, or a header without a name. */
  datatype ManifestReadError = OrphanPackage(package: string) | UnnamedGroup

  /** `s.split("\n")`: the pieces between newlines, an empty piece after a final newline included. */
  function SplitLines(s: string): (lines: seq<string>)
    ensures |lines| >= 1
    ensures forall i :: 0 <= i < |lines| ==> '\n' !in lines[i]
  {
    if s == [] then [[]]
    else
      var rest := SplitLines(s[1..]);
      if s[0] == '\n' then [[]] + rest else [[s[0]] + rest[0]] + rest[1..]
  }

  /** `"\n".join(lines)` */
  function JoinLines(lines: seq<string>): string
  {
    if lines == [] then []
    else if |lines| == 1 then lines[0]
    else lines[0] + "\n" + JoinLines(lines[1..])
  }

  lemma {:induction false} SplitSingle(a: string)
    requires '\n' !in a
    ensures SplitLines(a) == [a]
  {
    if a != [] {
      SplitSingle(a[1..]);
      assert [a[0]] + a[1..] == a;
    }
  }

  lemma {:induction false} SplitAfterLine(a: string, b: string)
    requires '\n' !in a
    ensures SplitLines(a + "\n" + b) == [a] + SplitLines(b)
  {
    if a == [] {
      assert a + "\n" + b == "\n" + b;
      assert ("\n" + b)[1..] == b;
    } else {
      SplitAfterLine(a[1..], b);
      assert (a + "\n" + b)[1..] == a[1..] + "\n" + b;
      assert [a[0]] + a[1..] == a;
    }
  }

  /** Splitting undoes joining, for at least one line and no line holding a newline. */
  lemma {:induction false} SplitJoin(lines: seq<string>)
    requires |lines| >= 1
    requires forall i :: 0 <= i < |lines| ==> '\n' !in lines[i]
    ensures SplitLines(JoinLines(lines)) == lines
  {
    if |lines| == 1 {
      SplitSingle(lines[0]);
    } else {
      SplitJoin(lines[1..]);
      SplitAfterLine(lines[0], JoinLines(lines[1..]));
      assert [lines[0]] + lines[1..] == lines;
    }
  }

  /** Leading spaces removed. */
  function TrimLeft(s: string): (t: string)
    ensures t == [] || t[0] != ' '
    ensures |t| <= |s| && t == s[|s| - |t|..]
    ensures forall i :: 0 <= i < |s| - |t| ==> s[i] == ' '
  {
    if s != [] && s[0] == ' ' then
      var t := TrimLeft(s[1..]);
      assert forall i :: 1 <= i < |s| - |t| ==> s[i] == s[1..][i - 1];
      t
    else s
  }

  /** Trailing spaces removed. */
  function TrimRight(s: string): (t: string)
    ensures t == [] || t[|t| - 1] != ' '
    ensures |t| <= |s| && t == s[..|t|]
    ensures forall i :: |t| <= i < |s| ==> s[i] == ' '
  {
    if s != [] && s[|s| - 1] == ' ' then
      var t := TrimRight(s[..|s| - 1]);
      assert forall i :: |t| <= i < |s| - 1 ==> s[i] == s[..|s| - 1][i];
      t
    else s
  }

  /** Neither starts nor ends with a space. */
  predicate Stripped(s: string)
  {
    s == [] || (s[0] != ' ' && s[|s| - 1] != ' ')
  }

  /** `s` is `lead` spaces, then `t`, then nothing but spaces. */
  predicate SpacePadded(s: string, lead: nat, t: string)
  {
    && lead + |t| <= |s|
    && s[lead..lead + |t|] == t
    && (forall i :: 0 <= i < lead ==> s[i] == ' ')
    && (forall i :: lead + |t| <= i < |s| ==> s[i] == ' ')
  }

  /** Spaces cut from the left of `s`, then from the right of the rest, leave a middle part of `s`. */
  lemma TrimmedIsPadded(s: string, l: string, t: string)
    requires |l| <= |s| && l == s[|s| - |l|..]
    requires forall i :: 0 <= i < |s| - |l| ==> s[i] == ' '
    requires |t| <= |l| && t == l[..|t|]
    requires forall i :: |t| <= i < |l| ==> l[i] == ' '
    ensures SpacePadded(s, |s| - |l|, t)
  {
    var lead := |s| - |l|;
    forall i | lead + |t| <= i < |s| ensures s[i] == ' ' {
      assert s[i] == l[i - lead];
    }
    assert s[lead..lead + |t|] == l[..|t|];
  }

  /** `s.strip(' ')`: spaces removed at both ends, the rest kept. */
  function Strip(s: string): (t: string)
    ensures Stripped(t)
    ensures Stripped(s) ==> t == s
    ensures exists lead: nat :: SpacePadded(s, lead, t)
  {
    var l := TrimLeft(s);
    var t := TrimRight(l);
    assert t != [] ==> t[0] == l[0];
    TrimmedIsPadded(s, l, t);
    t
  }

  /** An install name the parser can produce: not blank, stripped, and not a header. */
  predicate ValidPackage(s: string)
  {
    s != [] && Stripped(s) && s[0] != '#'
  }

  /** The groups read so far are well formed, and the open group is among them. */
  predicate ParseState(current: Option<string>, groups: map<string, seq<string>>)
  {
    && (current.Some? ==> current.value in groups)
    && (forall g :: g in groups ==> g != [] && Stripped(g))
    && (forall g :: g in groups ==> forall i :: 0 <= i < |groups[g]| ==> ValidPackage(groups[g][i]))
  }

  lemma OpenKeepsState(current: Option<string>, groups: map<string, seq<string>>, name: string)
    requires ParseState(current, groups)
    requires name != [] && Stripped(name)
    ensures ParseState(Some(name), groups[name := GetOr(groups, name, [])])
  {
  }

  lemma AppendKeepsState(g: string, groups: map<string, seq<string>>, package: string)
    requires ParseState(Some(g), groups)
    requires ValidPackage(package)
    ensures ParseState(Some(g), groups[g := GetOr(groups, g, []) + [package]])
  {
    var updated := groups[g := groups[g] + [package]];
    forall h | h in updated ensures forall i :: 0 <= i < |updated[h]| ==> ValidPackage(updated[h][i]) {
      if h == g {
        assert forall i :: 0 <= i < |groups[g]| ==> updated[h][i] == groups[g][i];
      }
    }
  }

  /**
   * Reads `lines` into the groups: blank lines are skipped, a header (`#` and
   * a name) opens or reopens the group it names, and every other line is an
   * install name appended to the open group.
   */
  function ParseLines(lines: seq<string>, current: Option<string>, groups: map<string, seq<string>>)
    : Result<map<string, seq<string>>, ManifestReadError>
    decreases |lines|
  {
    if lines == [] then Ok(groups)
    else
      var text := Strip(lines[0]);
      if text == [] then ParseLines(lines[1..], current, groups)
      else if text[0] == '#' then
        var name := Strip(text[1..]);
        if name == [] then Err(UnnamedGroup)
        else ParseLines(lines[1..], Some(name), groups[name := GetOr(groups, name, [])])
      else match current
        case None => Err(OrphanPackage(text))
        case Some(g) => ParseLines(lines[1..], current, groups[g := GetOr(groups, g, []) + [text]])
  }

  /**
   * Parsing keeps the groups well formed: every group name is non-blank and
   * stripped, every install name is non-blank, stripped and not a header, and
   * no group read earlier disappears.
   */
  lemma {:induction false} ParseKeepsState(lines: seq<string>, current: Option<string>, groups: map<string, seq<string>>)
    requires ParseState(current, groups)
    ensures ParseLines(lines, current, groups).Ok? ==> ParseState(None, ParseLines(lines, current, groups).value)
    ensures ParseLines(lines, current, groups).Ok? ==> groups.Keys <= ParseLines(lines, current, groups).value.Keys
    decreases |lines|
  {
    if lines != [] {
      var text := Strip(lines[0]);
      if text == [] {
        ParseKeepsState(lines[1..], current, groups);
      } else if text[0] == '#' {
        var name := Strip(text[1..]);
        if name != [] {
          OpenKeepsState(current, groups, name);
          ParseKeepsState(lines[1..], Some(name), groups[name := GetOr(groups, name, [])]);
        }
      } else if current.Some? {
        var g := current.value;
        AppendKeepsState(g, groups, text);
        ParseKeepsState(lines[1..], current, groups[g := GetOr(groups, g, []) + [text]]);
      }
    }
  }

  /**
   * `_read_dev_requirements`: the map from each logical requirement name to its
   * install names; every name is non-blank and stripped of spaces, and no
   * install name is a header.
   */
  function ReadDevRequirements(content: string): (r: Result<map<string, seq<string>>, ManifestReadError>)
    ensures r.Ok? ==> forall g :: g in r.value ==> g != [] && Stripped(g)
    ensures r.Ok? ==> forall g :: g in r.value ==> forall i :: 0 <= i < |r.value[g]| ==> ValidPackage(r.value[g][i])
  {
    ParseKeepsState(SplitLines(content), None, map[]);
    ParseLines(SplitLines(content), None, map[])
  }

  /** One group of a manifest: a logical requirement name and its install names in order. */
  datatype Group = Group(name: string, packages: seq<string>)

  /** A group that can be written as manifest lines and read back. */
  predicate WritableGroup(grp: Group)
  {
    && grp.name != [] && Stripped(grp.name) && '\n' !in grp.name
    && forall i :: 0 <= i < |grp.packages| ==> ValidPackage(grp.packages[i]) && '\n' !in grp.packages[i]
  }

  /** The header line of a group. */
  function Header(name: string): string
  {
    "# " + name
  }

  /** The manifest lines of the groups: each header followed by its install names. */
  function GroupLines(groups: seq<Group>): seq<string>
  {
    if groups == [] then [] else [Header(groups[0].name)] + groups[0].packages + GroupLines(groups[1..])
  }

  /** The manifest text of the groups. */
  function Render(groups: seq<Group>): string
  {
    JoinLines(GroupLines(groups))
  }

  /** The map the groups stand for. */
  function GroupMap(groups: seq<Group>): map<string, seq<string>>
  {
    if groups == [] then map[] else map[groups[0].name := groups[0].packages] + GroupMap(groups[1..])
  }

  /** No two groups share a name. */
  predicate DistinctNames(groups: seq<Group>)
  {
    forall i, j :: 0 <= i < j < |groups| ==> groups[i].name != groups[j].name
  }

  lemma StripSpaced(name: string)
    requires name != [] && Stripped(name)
    ensures Strip(" " + name) == name
  {
    var tail := " " + name;
    assert tail[1..] == name;
    assert TrimLeft(tail) == name;
  }

  lemma HeaderStripped(name: string)
    requires name != [] && Stripped(name)
    ensures Strip(Header(name)) == Header(name)
  {
    var h := Header(name);
    assert h[0] == '#' && h[|h| - 1] == name[|name| - 1];
    assert Stripped(h);
  }

  lemma HeaderName(name: string)
    requires name != [] && Stripped(name)
    ensures Strip(Header(name)[1..]) == name
  {
    assert Header(name)[1..] == " " + name;
    StripSpaced(name);
  }

  lemma ParsePackageStep(lines: seq<string>, g: string, groups: map<string, seq<string>>)
    requires g in groups
    requires lines != [] && ValidPackage(lines[0])
    ensures ParseLines(lines, Some(g), groups) == ParseLines(lines[1..], Some(g), groups[g := groups[g] + [lines[0]]])
  {
    assert Strip(lines[0]) == lines[0];
  }

  lemma AppendInTwoSteps(groups: map<string, seq<string>>, g: string, packages: seq<string>)
    requires g in groups
    requires packages != []
    ensures var next := groups[g := groups[g] + [packages[0]]];
            next[g := next[g] + packages[1..]] == groups[g := groups[g] + packages]
  {
    assert groups[g] + [packages[0]] + packages[1..] == groups[g] + packages;
  }

  /** Install names after the open group's header are appended to it in order. */
  lemma {:induction false} ParsePackages(packages: seq<string>, rest: seq<string>, g: string,
                                         groups: map<string, seq<string>>)
    requires g in groups
    requires forall i :: 0 <= i < |packages| ==> ValidPackage(packages[i])
    ensures ParseLines(packages + rest, Some(g), groups) == ParseLines(rest, Some(g), groups[g := groups[g] + packages])
  {
    if packages == [] {
      assert packages + rest == rest;
      assert groups[g] + packages == groups[g];
      assert groups[g := groups[g] + packages] == groups;
    } else {
      var lines := packages + rest;
      assert lines[0] == packages[0];
      assert lines[1..] == packages[1..] + rest;
      ParsePackageStep(lines, g, groups);
      ParsePackages(packages[1..], rest, g, groups[g := groups[g] + [packages[0]]]);
      AppendInTwoSteps(groups, g, packages);
    }
  }

  lemma ParseHeaderStep(lines: seq<string>, name: string, current: Option<string>, groups: map<string, seq<string>>)
    requires name != [] && Stripped(name)
    requires lines != [] && lines[0] == Header(name)
    ensures ParseLines(lines, current, groups) == ParseLines(lines[1..], Some(name), groups[name := GetOr(groups, name, [])])
  {
    HeaderStripped(name);
    HeaderName(name);
  }

  lemma FreshAppend(groups: map<string, seq<string>>, g: string, packages: seq<string>)
    ensures var started := groups[g := []];
            started[g := started[g] + packages] == groups[g := packages]
  {
    var started := groups[g := []];
    assert started[g] + packages == packages;
  }

  lemma ParseFreshGroupPackages(grp: Group, rest: seq<string>, groups: map<string, seq<string>>)
    requires WritableGroup(grp)
    requires grp.name !in groups
    ensures ParseLines(grp.packages + rest, Some(grp.name), groups[grp.name := []])
            == ParseLines(rest, Some(grp.name), groups[grp.name := grp.packages])
  {
    ParsePackages(grp.packages, rest, grp.name, groups[grp.name := []]);
    FreshAppend(groups, grp.name, grp.packages);
  }

  /** A header for a new name followed by its install names adds exactly that group. */
  lemma ParseGroup(grp: Group, rest: seq<string>, current: Option<string>, groups: map<string, seq<string>>)
    requires WritableGroup(grp)
    requires grp.name !in groups
    ensures ParseLines([Header(grp.name)] + grp.packages + rest, current, groups)
            == ParseLines(rest, Some(grp.name), groups[grp.name := grp.packages])
  {
    var lines := [Header(grp.name)] + grp.packages + rest;
    assert lines[1..] == grp.packages + rest;
    assert GetOr(groups, grp.name, []) == [];
    ParseHeaderStep(lines, grp.name, current, groups);
    ParseFreshGroupPackages(grp, rest, groups);
  }

  lemma AddFirstGroup(gs: seq<Group>, groups: map<string, seq<string>>)
    requires gs != []
    ensures groups[gs[0].name := gs[0].packages] + GroupMap(gs[1..]) == groups + GroupMap(gs)
  {
    var head := map[gs[0].name := gs[0].packages];
    assert GroupMap(gs) == head + GroupMap(gs[1..]);
    assert groups[gs[0].name := gs[0].packages] == groups + head;
  }

  /** The groups after the first still have distinct names, none of them read so far. */
  lemma RestOfGroups(gs: seq<Group>, groups: map<string, seq<string>>)
    requires gs != []
    requires forall i :: 0 <= i < |gs| ==> WritableGroup(gs[i])
    requires DistinctNames(gs)
    requires forall i :: 0 <= i < |gs| ==> gs[i].name !in groups
    ensures forall i :: 0 <= i < |gs[1..]| ==> WritableGroup(gs[1..][i])
    ensures DistinctNames(gs[1..])
    ensures forall i :: 0 <= i < |gs[1..]| ==> gs[1..][i].name !in groups[gs[0].name := gs[0].packages]
  {
    var tail := gs[1..];
    forall i | 0 <= i < |tail| ensures tail[i].name !in groups[gs[0].name := gs[0].packages] {
      assert tail[i] == gs[i + 1];
    }
    forall i, j | 0 <= i < j < |tail| ensures tail[i].name != tail[j].name {
      assert tail[i] == gs[i + 1] && tail[j] == gs[j + 1];
    }
    forall i | 0 <= i < |tail| ensures WritableGroup(tail[i]) {
      assert tail[i] == gs[i + 1];
    }
  }

  /** Reading the lines of groups with distinct new names adds exactly those groups. */
  lemma {:induction false} ParseGroups(gs: seq<Group>, current: Option<string>, groups: map<string, seq<string>>)
    requires forall i :: 0 <= i < |gs| ==> WritableGroup(gs[i])
    requires DistinctNames(gs)
    requires forall i :: 0 <= i < |gs| ==> gs[i].name !in groups
    ensures ParseLines(GroupLines(gs), current, groups) == Ok(groups + GroupMap(gs))
  {
    if gs == [] {
      assert groups + map[] == groups;
    } else {
      var grp := gs[0];
      var tail := gs[1..];
      ParseGroup(grp, GroupLines(tail), current, groups);
      var next := groups[grp.name := grp.packages];
      RestOfGroups(gs, groups);
      ParseGroups(tail, Some(grp.name), next);
      AddFirstGroup(gs, groups);
    }
  }

  lemma {:induction false} GroupLinesHaveNoNewline(gs: seq<Group>)
    requires forall i :: 0 <= i < |gs| ==> WritableGroup(gs[i])
    ensures forall i :: 0 <= i < |GroupLines(gs)| ==> '\n' !in GroupLines(gs)[i]
  {
    if gs != [] {
      GroupLinesHaveNoNewline(gs[1..]);
      var lines := GroupLines(gs);
      var ps := gs[0].packages;
      forall i | 0 <= i < |lines| ensures '\n' !in lines[i] {
        if i == 0 {
          assert lines[0] == "# " + gs[0].name;
        } else if i <= |ps| {
          assert lines[i] == ps[i - 1];
        } else {
          assert lines[i] == GroupLines(gs[1..])[i - 1 - |ps|];
        }
      }
    }
  }

  /** An empty manifest holds no group. */
  lemma EmptyManifest()
    ensures ReadDevRequirements("") == Ok(map[])
  {
    assert SplitLines("") == [""];
    assert Strip("") == "";
  }

  /**
   * Round trip: the text of groups with distinct names, each written as its
   * header followed by its install names one per line, reads back as the map
   * from each name to its install names in their original order.
   */
  lemma RoundTrip(gs: seq<Group>)
    requires forall i :: 0 <= i < |gs| ==> WritableGroup(gs[i])
    requires DistinctNames(gs)
    ensures ReadDevRequirements(Render(gs)) == Ok(GroupMap(gs))
  {
    if gs == [] {
      EmptyManifest();
    } else {
      GroupLinesHaveNoNewline(gs);
      SplitJoin(GroupLines(gs));
      ParseRendered(gs);
    }
  }

  lemma ParseRendered(gs: seq<Group>)
    requires forall i :: 0 <= i < |gs| ==> WritableGroup(gs[i])
    requires DistinctNames(gs)
    ensures ParseLines(GroupLines(gs), None, map[]) == Ok(GroupMap(gs))
  {
    ParseGroups(gs, None, map[]);
    assert map[] + GroupMap(gs) == GroupMap(gs);
  }

  /**
   * The manifest written as `"# {}\n{}".format(name, "\n".join(installs))`
   * maps `name` to `installs`, in order, and holds no other group.
   */
  lemma {:induction false} SingleGroupRoundTrip(name: string, installs: seq<string>)
    requires WritableGroup(Group(name, installs))
    ensures ReadDevRequirements(Header(name) + "\n" + JoinLines(installs)) == Ok(map[name := installs])
  {
    var grp := Group(name, installs);
    SplitAfterLine(Header(name), JoinLines(installs));
    var rest: seq<string> := if installs == [] then [""] else [];
    if installs == [] {
      assert SplitLines(JoinLines(installs)) == [""];
    } else {
      SplitJoin(installs);
    }
    assert SplitLines(Header(name) + "\n" + JoinLines(installs)) == [Header(name)] + installs + rest;
    ParseGroup(grp, rest, None, map[]);
    assert map[][name := installs] == map[name := installs];
    if installs == [] {
      assert Strip("") == "";
    }
  }

  /** The manifest of the test suite: `my_made_up_package_name` needs its two install names. */
  lemma ReadDevRequirementsExample()
    ensures var name := "my_made_up_package_name";
            var installs := ["my_install_name_one", "my_install_name_two"];
            ReadDevRequirements(Header(name) + "\n" + JoinLines(installs)) == Ok(map[name := installs])
  {
    var name := "my_made_up_package_name";
    var installs := ["my_install_name_one", "my_install_name_two"];
    assert WritableGroup(Group(name, installs));
    SingleGroupRoundTrip(name, installs);
  }

  /** An install name before any header makes the manifest unreadable, and the error names it. */
  lemma OrphanPackageRejected(package: string, rest: string)
    requires ValidPackage(package) && '\n' !in package
    ensures ReadDevRequirements(package + "\n" + rest) == Err(OrphanPackage(package))
  {
    SplitAfterLine(package, rest);
    assert Strip(package) == package;
  }

  /** A header without a name makes the manifest unreadable. */
  lemma UnnamedGroupRejected(rest: string)
    ensures ReadDevRequirements("#\n" + rest) == Err(UnnamedGroup)
  {
    SplitAfterLine("#", rest);
    assert "#" + "\n" + rest == "#\n" + rest;
    assert Strip("#") == "#";
    assert "#"[1..] == "";
    assert Strip("") == "";
  }

  /** A header with nothing but spaces after its `#` fails, wherever it occurs and whatever was read before. */
  lemma UnnamedHeaderRejected(l: string, rest: seq<string>, current: Option<string>, groups: map<string, seq<string>>)
    requires Strip(l) != [] && Strip(l)[0] == '#' && Strip(Strip(l)[1..]) == []
    ensures ParseLines([l] + rest, current, groups) == Err(UnnamedGroup)
  {
    assert ([l] + rest)[0] == l;
  }

  /** An install name read while no group is open fails, naming the stripped line. */
  lemma OrphanLineRejected(l: string, rest: seq<string>, groups: map<string, seq<string>>)
    requires Strip(l) != [] && Strip(l)[0] != '#'
    ensures ParseLines([l] + rest, None, groups) == Err(OrphanPackage(Strip(l)))
  {
    assert ([l] + rest)[0] == l;
  }

  /** Blank lines, or lines of spaces only, change nothing. */
  lemma {:induction false} BlankLinesSkipped(blanks: seq<string>, rest: seq<string>, current: Option<string>,
                                             groups: map<string, seq<string>>)
    requires forall i :: 0 <= i < |blanks| ==> Strip(blanks[i]) == []
    ensures ParseLines(blanks + rest, current, groups) == ParseLines(rest, current, groups)
  {
    if blanks == [] {
      assert blanks + rest == rest;
    } else {
      var lines := blanks + rest;
      assert lines[0] == blanks[0];
      assert lines[1..] == blanks[1..] + rest;
      BlankLinesSkipped(blanks[1..], rest, current, groups);
    }
  }
}
