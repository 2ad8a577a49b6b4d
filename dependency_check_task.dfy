/**
 * The dependency-direction check of the Gradle task: every module belongs to
 * a layer, layers are ordered, and a project dependency on a module of a
 * layer ranked after the current module's layer is a violation.
 */
module DependencyCheck {
  import opened Wrappers
  import opened KotlinStrings
  import opened DependencyCheckerHelper

  /** One entry of the `layerModules` map: a layer and the modules that belong to it. */
  datatype LayerEntry = LayerEntry(layer: string, modules: set<string>)

  /** `List.indexOf`: the first position of `x` in `xs`, or -1 when it is absent. */
  function IndexOf(xs: seq<string>, x: string): (r: int)
    ensures -1 <= r < |xs|
    ensures r == -1 <==> x !in xs
    ensures r >= 0 ==> xs[r] == x && x !in xs[..r]
  {
    if xs == [] then
      -1
    else if xs[0] == x then
      0
    else
      var k := IndexOf(xs[1..], x);
      assert k >= 0 ==> xs[..k + 1] == [xs[0]] + xs[1..][..k];
      if k == -1 then -1 else k + 1
  }

  /**
   * `resolveLayer`: the layer of the first entry of `layerModules`, in the
   * map's iteration order, whose module set contains the module; `None` when
   * there is none, and for a `null` module.
   */
  function ResolveLayer(layerModules: seq<LayerEntry>, name: Option<string>): (r: Option<string>)
    ensures r.Some? <==> name.Some? && exists i :: 0 <= i < |layerModules| && name.value in layerModules[i].modules
    ensures r.Some? ==> exists i :: (0 <= i < |layerModules| && layerModules[i].layer == r.value
                                     && name.value in layerModules[i].modules
                                     && forall j :: 0 <= j < i ==> name.value !in layerModules[j].modules)
    decreases |layerModules|
  {
    if name.None? || layerModules == [] then
      None
    else if name.value in layerModules[0].modules then
      Some(layerModules[0].layer)
    else
      var r := ResolveLayer(layerModules[1..], name);
      assert forall i :: 1 <= i < |layerModules| ==> layerModules[i] == layerModules[1..][i - 1];
      r
  }

  /** No module belongs to two layers. */
  predicate DisjointLayers(layerModules: seq<LayerEntry>) {
    forall i, j :: 0 <= i < j < |layerModules| ==> layerModules[i].modules !! layerModules[j].modules
  }

  /** When no module belongs to two layers, a module resolves to the layer that contains it, whatever the map's order. */
  lemma ResolveContainingLayer(layerModules: seq<LayerEntry>, i: nat, m: string)
    requires DisjointLayers(layerModules)
    requires i < |layerModules| && m in layerModules[i].modules
    ensures ResolveLayer(layerModules, Some(m)) == Some(layerModules[i].layer)
  {
    var r := ResolveLayer(layerModules, Some(m));
    var k :| 0 <= k < |layerModules| && layerModules[k].layer == r.value && m in layerModules[k].modules
      && forall j :: 0 <= j < k ==> m !in layerModules[j].modules;
  }

  /**
   * `isCrossLayerViolation`. Both layers must be resolved. With no cross
   * layer the edge is a violation when the dependency's layer comes later in
   * the ordering; with one, the edge is exempt when the cross layer's index
   * lies between the dependency's and the current layer's, otherwise the
   * same rule applies. The exemption only fires where the plain rule already
   * says "allowed", so the cross layer never changes the answer.
   */
  function IsCrossLayerViolation(sortLayersList: seq<string>, crossLogicLayer: Option<string>,
                                 currentLayer: Option<string>, depLayer: Option<string>): (r: bool)
    ensures r <==> currentLayer.Some? && depLayer.Some?
                   && IndexOf(sortLayersList, depLayer.value) > IndexOf(sortLayersList, currentLayer.value)
    ensures currentLayer == depLayer ==> !r
    ensures (currentLayer.Some? && currentLayer.value !in sortLayersList
             && depLayer.Some? && depLayer.value in sortLayersList) ==> r
  {
    if currentLayer.None? || depLayer.None? then
      false
    else
      var currentIndex := IndexOf(sortLayersList, currentLayer.value);
      var dependencyLayerIndex := IndexOf(sortLayersList, depLayer.value);
      if crossLogicLayer.None? then
        dependencyLayerIndex > currentIndex
      else
        var crossLayerIndex := IndexOf(sortLayersList, crossLogicLayer.value);
        if currentIndex >= crossLayerIndex && dependencyLayerIndex <= crossLayerIndex then
          false
        else
          dependencyLayerIndex > currentIndex
  }

  /** The cross-layer branch agrees with the plain rule for all indexes, -1 included. */
  lemma CrossBranchAgrees(currentIndex: int, dependencyLayerIndex: int, crossLayerIndex: int)
    ensures (if currentIndex >= crossLayerIndex && dependencyLayerIndex <= crossLayerIndex then false
             else dependencyLayerIndex > currentIndex)
            == (dependencyLayerIndex > currentIndex)
  {
  }

  /**
   * In an ordering without repeated layers, depending on a later layer is a
   * violation and depending on an earlier one is not, with or without a
   * cross layer.
   */
  lemma LaterLayerViolates(sortLayersList: seq<string>, crossLogicLayer: Option<string>, i: nat, j: nat)
    requires i < j < |sortLayersList|
    requires forall p, q :: 0 <= p < q < |sortLayersList| ==> sortLayersList[p] != sortLayersList[q]
    ensures IsCrossLayerViolation(sortLayersList, crossLogicLayer, Some(sortLayersList[i]), Some(sortLayersList[j]))
    ensures !IsCrossLayerViolation(sortLayersList, crossLogicLayer, Some(sortLayersList[j]), Some(sortLayersList[i]))
  {
    IndexOfDistinct(sortLayersList, i);
    IndexOfDistinct(sortLayersList, j);
  }

  /** In a sequence without repeats, `IndexOf` finds each element at its own position. */
  lemma IndexOfDistinct(xs: seq<string>, i: nat)
    requires i < |xs|
    requires forall p, q :: 0 <= p < q < |xs| ==> xs[p] != xs[q]
    ensures IndexOf(xs, xs[i]) == i
  {
    var k := IndexOf(xs, xs[i]);
    assert k >= 0 && xs[k] == xs[i];
  }

  // ---------------------------------------------------------------------
  // The dependency graph, as the task sees it through Gradle's API.

  /** A declared dependency: on another project of the build, or anything else (an external artifact). */
  datatype Dependency = ProjectDependency(displayName: string) | ExternalDependency(notation: string)

  /** A configuration of the project: whether it can be resolved, and its declared dependencies. */
  datatype Configuration = Configuration(canBeResolved: bool, dependencies: seq<Dependency>)

  /** The task state `check()` reads once `initConfig()` has run. */
  datatype Rules = Rules(sortLayersList: seq<string>, crossLogicLayer: Option<string>, layerModules: seq<LayerEntry>)

  /**
   * The report line of one violation, `cur (L) --> dep (L)`: it starts with
   * the current module, ends with the dependency's layer and a closing
   * parenthesis, and holds an arrow right after the current layer's `) `.
   */
  function ViolationLine(currentModule: string, currentLayer: string, dependency: string, dependencyLayer: string): (r: string)
    ensures |r| == |currentModule| + |currentLayer| + |dependency| + |dependencyLayer| + 11
    ensures r[..|currentModule|] == currentModule
    ensures r[|r| - 1 - |dependencyLayer|..|r| - 1] == dependencyLayer && r[|r| - 1] == ')'
    ensures Occurs(r, Arrow, |currentModule| + |currentLayer| + 4)
  {
    var r := currentModule + " (" + currentLayer + ") --> " + dependency + " (" + dependencyLayer + ")";
    var at := |currentModule| + |currentLayer| + 4;
    assert r[at..at + 3] == Arrow;
    r
  }

  /** What one declared dependency adds to the violation set, if anything. */
  function EdgeViolation(rules: Rules, currentModule: string, dependency: Dependency): (r: Option<string>)
    ensures dependency.ExternalDependency? ==> r == None
  {
    match dependency
    case ExternalDependency(_) => None
    case ProjectDependency(dependencyProjectDisplayName) =>
      var currentLayer := ResolveLayer(rules.layerModules, ExtractProjectInfo(currentModule));
      var dependencyLayer := ResolveLayer(rules.layerModules, ExtractProjectInfo(dependencyProjectDisplayName));
      if IsCrossLayerViolation(rules.sortLayersList, rules.crossLogicLayer, currentLayer, dependencyLayer) then
        Some(ViolationLine(ExtractProjectInfo(currentModule).value, currentLayer.value,
                           ExtractProjectInfo(dependencyProjectDisplayName).value, dependencyLayer.value))
      else
        None
  }

  /** Three layers `L1 < L2 < L3` holding `:core`, `:domain` and `:app`. */
  const ExampleLayers: seq<string> := ["L1", "L2", "L3"]
  const ExampleModules: seq<LayerEntry> := [LayerEntry("L1", {":core"}), LayerEntry("L2", {":domain"}), LayerEntry("L3", {":app"})]

  lemma ExampleResolves()
    ensures ResolveLayer(ExampleModules, Some(":core")) == Some("L1")
    ensures ResolveLayer(ExampleModules, Some(":app")) == Some("L3")
    ensures ResolveLayer(ExampleModules, Some(":root")) == None
  {
    assert ":app" !in ExampleModules[0].modules && ":app" !in ExampleModules[1].modules;
    assert ":root" !in ExampleModules[0].modules && ":root" !in ExampleModules[1].modules;
    assert ":root" !in ExampleModules[2].modules;
  }

  lemma ExampleVerdicts()
    ensures IsCrossLayerViolation(ExampleLayers, None, Some("L1"), Some("L3"))
    ensures !IsCrossLayerViolation(ExampleLayers, None, Some("L3"), Some("L1"))
    ensures !IsCrossLayerViolation(ExampleLayers, Some("L2"), Some("L3"), Some("L1"))
  {
    assert IndexOf(ExampleLayers, "L1") == 0;
    assert IndexOf(ExampleLayers, "L3") == 2;
  }

  /**
   * For dependencies between projects shown as `project '<path>'`, the
   * verdict is taken on the layers of the two paths, and the line names the
   * paths without decoration.
   */
  lemma EdgeViolationOfPaths(rules: Rules, current: string, dependency: string)
    requires '\'' !in current && '\'' !in dependency
    ensures var currentLayer := ResolveLayer(rules.layerModules, Some(current));
      var dependencyLayer := ResolveLayer(rules.layerModules, Some(dependency));
      EdgeViolation(rules, "project '" + current + "'", ProjectDependency("project '" + dependency + "'"))
      == if IsCrossLayerViolation(rules.sortLayersList, rules.crossLogicLayer, currentLayer, dependencyLayer)
         then Some(ViolationLine(current, currentLayer.value, dependency, dependencyLayer.value))
         else None
  {
    ExtractDisplayName(current);
    ExtractDisplayName(dependency);
  }

  /** The line reported for `:core` in `L1` depending on `:app` in `L3`. */
  lemma ViolationLineExample()
    ensures ViolationLine(":core", "L1", ":app", "L3") == ":core (L1) --> :app (L3)"
  {
  }

  /** On the example layers `:core` may not depend on `:app`; the report line names both ends by path. */
  lemma LayeringExampleViolation()
    ensures EdgeViolation(Rules(ExampleLayers, None, ExampleModules), "project '" + ":core" + "'", ProjectDependency("project '" + ":app" + "'"))
            == Some(ViolationLine(":core", "L1", ":app", "L3"))
  {
    EdgeViolationOfPaths(Rules(ExampleLayers, None, ExampleModules), ":core", ":app");
    ExampleResolves();
    ExampleVerdicts();
  }

  /** `:app` may depend on `:core`, with or without `L2` as cross layer. */
  lemma LayeringExampleAllowed(crossLogicLayer: Option<string>)
    requires crossLogicLayer == None || crossLogicLayer == Some("L2")
    ensures EdgeViolation(Rules(ExampleLayers, crossLogicLayer, ExampleModules), "project '" + ":app" + "'", ProjectDependency("project '" + ":core" + "'")) == None
  {
    EdgeViolationOfPaths(Rules(ExampleLayers, crossLogicLayer, ExampleModules), ":app", ":core");
    ExampleResolves();
    ExampleVerdicts();
  }

  /** The violation lines of a list of dependencies, in order, repeats included. */
  function Candidates(rules: Rules, currentModule: string, dependencies: seq<Dependency>): seq<string>
    decreases |dependencies|
  {
    if dependencies == [] then
      []
    else
      var last := EdgeViolation(rules, currentModule, dependencies[|dependencies| - 1]);
      Candidates(rules, currentModule, dependencies[..|dependencies| - 1]) + (if last.Some? then [last.value] else [])
  }

  /** The violation lines of all resolvable configurations, in order, repeats included. */
  function AllCandidates(rules: Rules, currentModule: string, configurations: seq<Configuration>): seq<string>
    decreases |configurations|
  {
    if configurations == [] then
      []
    else
      var last := configurations[|configurations| - 1];
      AllCandidates(rules, currentModule, configurations[..|configurations| - 1])
        + (if last.canBeResolved then Candidates(rules, currentModule, last.dependencies) else [])
  }

  predicate NoDuplicates(s: seq<string>) {
    forall i, j :: 0 <= i < j < |s| ==> s[i] != s[j]
  }

  /** `MutableSet.add` on Kotlin's insertion-ordered set: a new element goes at the end, a known one is ignored. */
  function SetAdd(elements: seq<string>, x: string): (r: seq<string>)
    ensures forall y :: y in r <==> y in elements || y == x
    ensures elements <= r
    ensures NoDuplicates(elements) ==> NoDuplicates(r)
  {
    if x in elements then elements else elements + [x]
  }

  /** Adding the elements of `xs`, one by one, to the insertion-ordered set `elements`. */
  function AddAll(elements: seq<string>, xs: seq<string>): (r: seq<string>)
    ensures forall y :: y in r <==> y in elements || y in xs
    ensures elements <= r
    ensures NoDuplicates(elements) ==> NoDuplicates(r)
    decreases |xs|
  {
    if xs == [] then elements else SetAdd(AddAll(elements, xs[..|xs| - 1]), xs[|xs| - 1])
  }

  /** Adding two runs of elements one after the other is adding their concatenation. */
  lemma {:induction false} AddAllAppend(elements: seq<string>, xs: seq<string>, ys: seq<string>)
    ensures AddAll(elements, xs + ys) == AddAll(AddAll(elements, xs), ys)
    decreases |ys|
  {
    if ys == [] {
      assert xs + ys == xs;
    } else {
      var n := |ys| - 1;
      assert (xs + ys)[..|xs + ys| - 1] == xs + ys[..n];
      AddAllAppend(elements, xs, ys[..n]);
    }
  }

  /** The violation set `check()` builds for the project `currentModule`: duplicates collapse. */
  function Violations(rules: Rules, currentModule: string, configurations: seq<Configuration>): (r: seq<string>)
    ensures NoDuplicates(r)
  {
    AddAll([], AllCandidates(rules, currentModule, configurations))
  }

  lemma {:induction false} CandidatesMembership(rules: Rules, currentModule: string, dependencies: seq<Dependency>, v: string)
    ensures v in Candidates(rules, currentModule, dependencies)
            <==> exists k :: 0 <= k < |dependencies| && EdgeViolation(rules, currentModule, dependencies[k]) == Some(v)
    decreases |dependencies|
  {
    if dependencies != [] {
      var n := |dependencies| - 1;
      var init := dependencies[..n];
      CandidatesMembership(rules, currentModule, init, v);
      assert forall k :: 0 <= k < n ==> init[k] == dependencies[k];
    }
  }

  /**
   * A line is in the violation set exactly when some project dependency of
   * some resolvable configuration produces it.
   */
  lemma {:induction false} AllCandidatesMembership(rules: Rules, currentModule: string, configurations: seq<Configuration>, v: string)
    ensures v in AllCandidates(rules, currentModule, configurations)
            <==> exists c :: (0 <= c < |configurations| && configurations[c].canBeResolved
                              && v in Candidates(rules, currentModule, configurations[c].dependencies))
    decreases |configurations|
  {
    if configurations != [] {
      var n := |configurations| - 1;
      var init := configurations[..n];
      AllCandidatesMembership(rules, currentModule, init, v);
      assert forall c :: 0 <= c < n ==> init[c] == configurations[c];
    }
  }

  /**
   * A line is in the violation set exactly when some project dependency of
   * some resolvable configuration produces it.
   */
  lemma ViolationsMembership(rules: Rules, currentModule: string, configurations: seq<Configuration>, v: string)
    ensures v in Violations(rules, currentModule, configurations)
            <==> exists c, k :: (0 <= c < |configurations| && configurations[c].canBeResolved
                                 && 0 <= k < |configurations[c].dependencies|
                                 && EdgeViolation(rules, currentModule, configurations[c].dependencies[k]) == Some(v))
  {
    AllCandidatesMembership(rules, currentModule, configurations, v);
    forall c | 0 <= c < |configurations|
      ensures v in Candidates(rules, currentModule, configurations[c].dependencies)
              <==> exists k :: 0 <= k < |configurations[c].dependencies|
                              && EdgeViolation(rules, currentModule, configurations[c].dependencies[k]) == Some(v)
    {
      CandidatesMembership(rules, currentModule, configurations[c].dependencies, v);
    }
  }

  /** The project dependencies of a list, in order. */
  function ProjectDependencies(dependencies: seq<Dependency>): (r: seq<Dependency>)
    ensures forall d :: d in r <==> d in dependencies && d.ProjectDependency?
    decreases |dependencies|
  {
    if dependencies == [] then
      []
    else
      var last := dependencies[|dependencies| - 1];
      ProjectDependencies(dependencies[..|dependencies| - 1]) + (if last.ProjectDependency? then [last] else [])
  }

  /** Dependencies that are not on projects contribute nothing: dropping them all changes no line or its position. */
  lemma {:induction false} OnlyProjectDependenciesCount(rules: Rules, currentModule: string, dependencies: seq<Dependency>)
    ensures Candidates(rules, currentModule, ProjectDependencies(dependencies)) == Candidates(rules, currentModule, dependencies)
    decreases |dependencies|
  {
    if dependencies != [] {
      var n := |dependencies| - 1;
      var init := dependencies[..n];
      OnlyProjectDependenciesCount(rules, currentModule, init);
      var p := ProjectDependencies(init);
      assert dependencies[..n] == init;
      if dependencies[n].ProjectDependency? {
        assert ProjectDependencies(dependencies) == p + [dependencies[n]];
        assert (p + [dependencies[n]])[..|p|] == p;
      } else {
        assert ProjectDependencies(dependencies) == p;
        assert EdgeViolation(rules, currentModule, dependencies[n]) == None;
      }
    }
  }

  /**
   * The report splits a line built by `check()` back into its two halves:
   * `cur (L)` and `dep (L)`, provided neither part holds an arrow and both
   * module names start with a visible character.
   */
  lemma FormattedViolationRow(currentModule: string, currentLayer: string, dependency: string, dependencyLayer: string)
    requires !Contains(currentModule, Arrow) && !Contains(currentLayer, Arrow)
    requires !Contains(dependency, Arrow) && !Contains(dependencyLayer, Arrow)
    requires currentModule != [] && !IsWhitespace(currentModule[0])
    requires dependency != [] && !IsWhitespace(dependency[0])
    ensures ViolationRow(ViolationLine(currentModule, currentLayer, dependency, dependencyLayer))
            == Row(currentModule + " (" + currentLayer + ")", dependency + " (" + dependencyLayer + ")")
  {
    var a := currentModule + " (" + currentLayer + ")";
    var b := dependency + " (" + dependencyLayer + ")";
    EndpointHasNoArrow(currentModule, currentLayer);
    EndpointHasNoArrow(dependency, dependencyLayer);
    assert ViolationLine(currentModule, currentLayer, dependency, dependencyLayer) == a + " --> " + b;
    SplitAtArrow(a, b);
  }

  /** A line `a --> b` whose halves hold no arrow and are already trimmed is cut back into `a` and `b`. */
  lemma SplitAtArrow(a: string, b: string)
    requires !Contains(a, Arrow) && !Contains(b, Arrow)
    requires a != [] && !IsWhitespace(a[0]) && !IsWhitespace(a[|a| - 1])
    requires b != [] && !IsWhitespace(b[0]) && !IsWhitespace(b[|b| - 1])
    ensures ViolationRow(a + " --> " + b) == Row(a, b)
  {
    FirstArrowAfter(a, b);
    ViolationRowCells(a + " --> " + b, |a| + 1);
    FirstCellOfLine(a, b);
    SecondCellOfLine(a, b);
  }

  lemma FirstCellOfLine(a: string, b: string)
    requires a != [] && !IsWhitespace(a[0]) && !IsWhitespace(a[|a| - 1])
    ensures Trim((a + " --> " + b)[..|a| + 1]) == a
  {
    assert (a + " --> " + b)[..|a| + 1] == [] + a + " ";
    TrimCore([], a, " ");
  }

  lemma SecondCellOfLine(a: string, b: string)
    requires !Contains(b, Arrow)
    requires b != [] && !IsWhitespace(b[0]) && !IsWhitespace(b[|b| - 1])
    ensures Trim(FirstPiece((a + " --> " + b)[|a| + 4..], Arrow)) == b
  {
    var rest := (a + " --> " + b)[|a| + 4..];
    assert rest == [] + [' '] + b;
    EmptyContainsNothing(Arrow);
    NoOccurrenceAcross([], ' ', b, Arrow);
    assert FirstPiece(rest, Arrow) == " " + b + [];
    TrimCore(" ", b, []);
  }

  /** In `a --> b` with no arrow inside `a`, the first arrow is the separator. */
  lemma FirstArrowAfter(a: string, b: string)
    requires !Contains(a, Arrow)
    ensures Occurs(a + " --> " + b, Arrow, |a| + 1)
    ensures forall j :: 0 <= j < |a| + 1 ==> !Occurs(a + " --> " + b, Arrow, j)
  {
    var line := a + " --> " + b;
    assert Arrow == ['-', '-', '>'];
    assert line[|a| + 1..|a| + 4] == Arrow;
    forall j | 0 <= j < |a| + 1 ensures !Occurs(line, Arrow, j) {
      if j + 3 <= |a| {
        assert line[j..j + 3] == a[j..j + 3];
        assert !Occurs(a, Arrow, j);
      } else {
        assert line[|a|] == ' ';
        assert line[j..j + 3][|a| - j] == line[|a|];
      }
    }
  }

  /** `name (layer)` holds no arrow when neither part does. */
  lemma EndpointHasNoArrow(name: string, layer: string)
    requires !Contains(name, Arrow) && !Contains(layer, Arrow)
    ensures !Contains(name + " (" + layer + ")", Arrow)
  {
    EmptyContainsNothing(Arrow);
    NoOccurrenceAcross(layer, ')', [], Arrow);
    assert layer + [')'] + [] == layer + ")";
    NoOccurrenceAcross([], '(', layer + ")", Arrow);
    assert [] + ['('] + (layer + ")") == "(" + layer + ")";
    NoOccurrenceAcross(name, ' ', "(" + layer + ")", Arrow);
    assert name + [' '] + ("(" + layer + ")") == name + " (" + layer + ")";
  }

  // ---------------------------------------------------------------------
  // The task object.

  /**
   * The Gradle task. The three configured inputs are fixed when the plugin
   * registers the task; `initConfig()` derives the two private fields from
   * them, and `check()` walks the project's configurations.
   */
  class DependencyCheckTask {
    const sortLayers: seq<string>
    const layerModules: seq<LayerEntry>
    const crossLogicLayerModule: Option<string>

    var sortLayersList: seq<string>
    var crossLogicLayer: Option<string>

    /** The plugin's registration: the extension's three settings are copied into the task. */
    constructor (sortLayers: seq<string>, layerModules: seq<LayerEntry>, crossLogicLayerModule: Option<string>)
      ensures this.sortLayers == sortLayers && this.layerModules == layerModules
      ensures this.crossLogicLayerModule == crossLogicLayerModule
      ensures sortLayersList == [] && crossLogicLayer == None
    {
      this.sortLayers := sortLayers;
      this.layerModules := layerModules;
      this.crossLogicLayerModule := crossLogicLayerModule;
      sortLayersList := [];
      crossLogicLayer := None;
    }

    function CurrentRules(): Rules
      reads this
    {
      Rules(sortLayersList, crossLogicLayer, layerModules)
    }

    /**
     * `initConfig()`: the ordering is copied; the cross layer is the layer of
     * the configured cross-layer module, and is left as it was when no such
     * module is configured.
     */
    method InitConfig()
      modifies this`sortLayersList, this`crossLogicLayer
      ensures sortLayersList == sortLayers
      ensures crossLogicLayer == if crossLogicLayerModule.Some? then ResolveLayer(layerModules, crossLogicLayerModule)
                                 else old(crossLogicLayer)
    {
      sortLayersList := sortLayers;
      if crossLogicLayerModule.Some? {
        crossLogicLayer := ResolveLayer(layerModules, crossLogicLayerModule);
      }
    }

    /**
     * `check()` for the project shown as `projectDisplayName`: every project
     * dependency of every resolvable configuration is classified, and each
     * violation line is added to an insertion-ordered set. When that set is
     * not empty, the report is generated from it; `report` holds the table
     * rows of that report.
     */
    method Check(projectDisplayName: string, configurations: seq<Configuration>)
      returns (violations: seq<string>, report: Option<seq<Row>>)
      modifies this`sortLayersList, this`crossLogicLayer
      ensures sortLayersList == sortLayers
      ensures crossLogicLayer == if crossLogicLayerModule.Some? then ResolveLayer(layerModules, crossLogicLayerModule)
                                 else old(crossLogicLayer)
      ensures violations == Violations(CurrentRules(), projectDisplayName, configurations)
      ensures report == if violations == [] then None else Some(TableRows(violations))
    {
      InitConfig();
      violations := CheckConfigurations(projectDisplayName, configurations);
      if violations != [] {
        report := Some(TableRows(violations));
      } else {
        report := None;
      }
    }

    /**
     * The loop of `check()` over the project's configurations: only the
     * resolvable ones are looked at, and the violations of each are added
     * to one insertion-ordered set.
     */
    method CheckConfigurations(projectDisplayName: string, configurations: seq<Configuration>)
      returns (violations: seq<string>)
      ensures violations == Violations(CurrentRules(), projectDisplayName, configurations)
    {
      violations := [];
      var c := 0;
      while c < |configurations|
        invariant 0 <= c <= |configurations|
        invariant violations == AddAll([], AllCandidates(CurrentRules(), projectDisplayName, configurations[..c]))
      {
        var config := configurations[c];
        var currentModule := projectDisplayName;
        ghost var done := AllCandidates(CurrentRules(), projectDisplayName, configurations[..c]);
        assert configurations[..c + 1][..c] == configurations[..c];
        if config.canBeResolved {
          violations := CheckDependencies(currentModule, config.dependencies, violations);
          AddAllAppend([], done, Candidates(CurrentRules(), currentModule, config.dependencies));
        } else {
          assert done + [] == done;
        }
        c := c + 1;
      }
      assert configurations[..c] == configurations;
    }

    /**
     * The inner loop of `check()` over one configuration's dependencies:
     * external dependencies are skipped; for a project dependency both ends
     * are resolved to layers and, on a violation, its line is added to the set.
     */
    method CheckDependencies(currentModule: string, dependencies: seq<Dependency>, violations0: seq<string>)
      returns (violations: seq<string>)
      ensures violations == AddAll(violations0, Candidates(CurrentRules(), currentModule, dependencies))
    {
      violations := violations0;
      var k := 0;
      while k < |dependencies|
        invariant 0 <= k <= |dependencies|
        invariant violations == AddAll(violations0, Candidates(CurrentRules(), currentModule, dependencies[..k]))
      {
        var dependency := dependencies[k];
        assert dependencies[..k + 1][..k] == dependencies[..k];
        ghost var before := Candidates(CurrentRules(), currentModule, dependencies[..k]);
        ghost var edge := EdgeViolation(CurrentRules(), currentModule, dependency);
        assert Candidates(CurrentRules(), currentModule, dependencies[..k + 1])
               == before + (if edge.Some? then [edge.value] else []);
        if dependency.ProjectDependency? {
          var currentLayer := ResolveLayer(layerModules, ExtractProjectInfo(currentModule));
          var dependencyProjectDisplayName := dependency.displayName;
          var dependencyLayer := ResolveLayer(layerModules, ExtractProjectInfo(dependencyProjectDisplayName));
          if IsCrossLayerViolation(sortLayersList, crossLogicLayer, currentLayer, dependencyLayer) {
            var line := ViolationLine(ExtractProjectInfo(currentModule).value, currentLayer.value,
                                      ExtractProjectInfo(dependencyProjectDisplayName).value, dependencyLayer.value);
            assert edge == Some(line);
            assert (before + [line])[..|before|] == before;
            violations := SetAdd(violations, line);
          } else {
            assert edge == None;
            assert before + [] == before;
          }
        } else {
          assert before + [] == before;
        }
        k := k + 1;
      }
      assert dependencies[..k] == dependencies;
    }
  }
}
