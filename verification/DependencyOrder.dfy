/** Ordering packages for publication: a depth-first walk that fails exactly on cyclic dependencies. */
module DependencyOrder {
  import opened Wrappers

  datatype Package = Package(name: string, version: string, dependencies: set<string>, peerDependencies: set<string>)

  datatype OrderError = Duplicate | Cyclic

  type Graph = map<string, Package>

  /** A candidate depends on another candidate, by a dependency or by a peer dependency. */
  predicate DependsOn(graph: Graph, name: string, dependency: string) {
    name in graph && dependency in graph && dependency in graph[name].dependencies + graph[name].peerDependencies
  }

  ghost predicate Path(graph: Graph, path: seq<string>) {
    && |path| > 0
    && (forall i :: 0 <= i < |path| ==> path[i] in graph)
    && forall i :: 0 < i < |path| ==> DependsOn(graph, path[i - 1], path[i])
  }

  ghost predicate Cycle(graph: Graph, path: seq<string>) {
    Path(graph, path) && DependsOn(graph, path[|path| - 1], path[0])
  }

  /** Every dependency of a package in the order comes before it. */
  ghost predicate Topological(graph: Graph, order: seq<string>) {
    && (forall i, j :: 0 <= i < j < |order| ==> order[i] != order[j])
    && forall i, d :: 0 <= i < |order| && DependsOn(graph, order[i], d) ==> d in order[..i]
  }

  /** In an order that contains every dependency of its members first, no path leads backwards into a cycle. */
  lemma {:induction false} PathsGoBack(graph: Graph, order: seq<string>, path: seq<string>, i: nat, k: nat)
    requires Topological(graph, order) && Path(graph, path)
    requires i < |order| && order[i] == path[0] && k < |path|
    ensures path[k] in order[..i + 1] && (k > 0 ==> path[k] in order[..i])
    decreases k
  {
    if k > 0 {
      PathsGoBack(graph, order, path, i, k - 1);
      var j :| 0 <= j <= i && order[j] == path[k - 1];
      assert DependsOn(graph, order[j], path[k]);
      assert path[k] in order[..j];
      var m :| 0 <= m < j && order[m] == path[k];
      assert order[..i][m] == path[k];
    }
  }

  lemma TopologicalIsAcyclic(graph: Graph, order: seq<string>, path: seq<string>)
    requires Topological(graph, order) && forall name :: name in graph ==> name in order
    ensures !Cycle(graph, path)
  {
    if Cycle(graph, path) {
      var i :| 0 <= i < |order| && order[i] == path[0];
      PathsGoBack(graph, order, path + [path[0]], i, |path|);
    }
  }

  lemma TopologicalExtends(graph: Graph, order: seq<string>, name: string)
    requires Topological(graph, order) && name !in order
    requires forall d :: DependsOn(graph, name, d) ==> d in order
    ensures Topological(graph, order + [name])
  {
    var after := order + [name];
    forall i, d | 0 <= i < |after| && DependsOn(graph, after[i], d) ensures d in after[..i] {
      assert i < |order| ==> after[..i] == order[..i];
      assert i == |order| ==> after[..i] == order;
    }
  }

  // Names in order

  predicate Before(left: string, right: string) {
    if right == "" then false
    else if left == "" then true
    else left[0] < right[0] || (left[0] == right[0] && Before(left[1..], right[1..]))
  }

  lemma {:induction false} BeforeIsTotal(a: string, b: string)
    ensures a == b || Before(a, b) || Before(b, a)
    ensures !(Before(a, b) && Before(b, a)) && !Before(a, a)
  {
    if a != "" && b != "" {
      BeforeIsTotal(a[1..], b[1..]);
      assert a == [a[0]] + a[1..] && b == [b[0]] + b[1..];
    }
    if a != "" {
      BeforeIsTotal(a[1..], a[1..]);
    }
  }

  lemma {:induction false} BeforeIsTransitive(a: string, b: string, c: string)
    requires Before(a, b) && Before(b, c)
    ensures Before(a, c)
  {
    if a != "" && a[0] == b[0] == c[0] {
      BeforeIsTransitive(a[1..], b[1..], c[1..]);
    }
  }

  /** The first character in which one differs from the other is smaller, or there is none and it ends first. */
  ghost predicate DiffersAt(a: string, b: string, i: int) {
    && 0 <= i <= |a| && i < |b| && (forall j :: 0 <= j < i ==> a[j] == b[j])
    && (i < |a| ==> a[i] < b[i])
  }

  lemma {:induction false} BeforeExactly(a: string, b: string)
    ensures Before(a, b) <==> exists i :: DiffersAt(a, b, i)
    decreases |a|
  {
    if b == "" {
    } else if a == "" {
      assert DiffersAt(a, b, 0);
    } else {
      BeforeExactly(a[1..], b[1..]);
      if a[0] < b[0] {
        assert DiffersAt(a, b, 0);
      } else if a[0] == b[0] {
        if Before(a, b) {
          var i :| DiffersAt(a[1..], b[1..], i);
          LaterDifference(a, b, i);
        }
        if exists i :: DiffersAt(a, b, i) {
          var i :| DiffersAt(a, b, i);
          assert DiffersAt(a[1..], b[1..], i - 1);
        }
      }
    }
  }

  lemma LaterDifference(a: string, b: string, i: int)
    requires a != "" && b != "" && a[0] == b[0] && DiffersAt(a[1..], b[1..], i)
    ensures DiffersAt(a, b, i + 1)
  {
    forall j | 0 <= j < i + 1 ensures a[j] == b[j] {
      if j > 0 {
        assert a[1..][j - 1] == b[1..][j - 1];
      }
    }
  }

  ghost predicate Sorted(names: seq<string>) {
    forall i, j :: 0 <= i < j < |names| ==> Before(names[i], names[j])
  }

  /** The names of a set in ascending order. */
  method SortedNames(names: set<string>) returns (sorted: seq<string>)
    ensures Sorted(sorted) && forall k :: k in sorted <==> k in names
  {
    sorted := [];
    var rest := names;
    while rest != {}
      invariant rest <= names && Sorted(sorted)
      invariant forall k :: k in names <==> k in sorted || k in rest
      invariant forall i, k :: 0 <= i < |sorted| && k in rest ==> Before(sorted[i], k)
      decreases rest
    {
      var least := Least(rest);
      forall k | k in rest - {least} ensures Before(least, k) {
        BeforeIsTotal(least, k);
      }
      sorted := sorted + [least];
      rest := rest - {least};
    }
  }

  method Least(names: set<string>) returns (least: string)
    requires names != {}
    ensures least in names && forall k :: k in names ==> !Before(k, least)
  {
    least :| least in names;
    var rest := names - {least};
    BeforeIsTotal(least, least);
    while rest != {}
      invariant least in names && rest <= names
      invariant forall k :: k in names && k !in rest ==> !Before(k, least)
      decreases rest
    {
      var k :| k in rest;
      rest := rest - {k};
      if Before(k, least) {
        forall other | other in names && other !in rest ensures !Before(other, k) {
          BeforeIsTotal(k, k);
          if Before(other, k) {
            BeforeIsTransitive(other, k, least);
          }
        }
        least := k;
      }
    }
  }

  /** What holds of the walk's variables between visits. */
  ghost predicate Consistent(graph: Graph, result: seq<string>, visiting: set<string>, visited: set<string>,
                             stack: seq<string>) {
    && (forall name :: name in visiting <==> name in stack)
    && (forall name :: name in visited <==> name in result)
    && visiting !! visited
    && (forall name :: name in visiting || name in visited ==> name in graph)
    && (stack != [] ==> Path(graph, stack))
    && Topological(graph, result)
  }

  lemma Enters(graph: Graph, result: seq<string>, visiting: set<string>, visited: set<string>, stack: seq<string>,
               name: string)
    requires Consistent(graph, result, visiting, visited, stack) && name in graph && name !in visiting + visited
    requires stack != [] ==> DependsOn(graph, stack[|stack| - 1], name)
    ensures Consistent(graph, result, visiting + {name}, visited, stack + [name])
  {
    hide DependsOn, Topological;
  }

  lemma Leaves(graph: Graph, result: seq<string>, visiting: set<string>, visited: set<string>, stack: seq<string>,
               name: string)
    requires Consistent(graph, result, visiting + {name}, visited, stack + [name]) && name !in visiting
    requires (forall k :: k in visiting <==> k in stack) && (stack != [] ==> Path(graph, stack))
    requires forall d :: DependsOn(graph, name, d) ==> d in visited
    ensures Consistent(graph, result + [name], visiting, visited + {name}, stack)
  {
    TopologicalExtends(graph, result, name);
    hide DependsOn, Topological, Path;
  }

  /** The variables the nested function closes over. */
  class Walk {
    const graph: Graph
    var result: seq<string>
    var visiting: set<string>
    var visited: set<string>

    /** What is being visited, in the order the visits began: each depends on the next. */
    ghost var stack: seq<string>

    ghost predicate Valid()
      reads this
    {
      Consistent(graph, result, visiting, visited, stack)
    }

    constructor (graph: Graph)
      ensures Valid() && this.graph == graph && stack == [] && result == []
    {
      this.graph := graph;
      result, visiting, visited, stack := [], {}, {}, [];
    }

    /**
      Visit a name: everything it depends on, then itself. It fails exactly when it runs into a
      name still being visited, and then the names being visited contain a cycle.
     */
    method Visit(name: string) returns (error: Option<OrderError>)
      requires Valid() && name in graph
      requires stack != [] ==> DependsOn(graph, stack[|stack| - 1], name)
      modifies this
      ensures error.Some? ==> error.value == Cyclic && exists path :: Cycle(graph, path)
      ensures error.None? ==>
        && Valid() && stack == old(stack) && visiting == old(visiting)
        && name in visited && old(visited) <= visited && old(result) <= result
      decreases graph.Keys - visiting
    {
      hide DependsOn, Topological;
      if name in visiting {
        ghost var i :| 0 <= i < |stack| && stack[i] == name;
        assert Cycle(graph, stack[i..]);
        return Some(Cyclic);
      }
      if name in visited {
        return None;
      }
      assert (forall k :: k in visiting <==> k in stack) && (stack != [] ==> Path(graph, stack));
      Enters(graph, result, visiting, visited, stack, name);
      hide Consistent, Path;
      visiting := visiting + {name};
      stack := stack + [name];
      var dependencies := SortedNames(graph[name].dependencies + graph[name].peerDependencies);
      for i := 0 to |dependencies|
        invariant Valid() && stack == old(stack) + [name] && visiting == old(visiting) + {name}
        invariant old(visited) <= visited && old(result) <= result
        invariant forall j :: 0 <= j < i && dependencies[j] in graph ==> dependencies[j] in visited
      {
        if dependencies[i] in graph {
          IsDependency(graph, name, dependencies[i]);
          error := Visit(dependencies[i]);
          if error.Some? {
            return;
          }
        }
      }
      forall d | DependsOn(graph, name, d) ensures d in visited {
        IsDependency(graph, name, d);
        var j :| 0 <= j < |dependencies| && dependencies[j] == d;
      }
      Leaves(graph, result, old(visiting), visited, old(stack), name);
      visiting := visiting - {name};
      stack := old(stack);
      visited := visited + {name};
      result := result + [name];
      return None;
    }
  }

  lemma IsDependency(graph: Graph, name: string, d: string)
    ensures DependsOn(graph, name, d) <==>
      name in graph && d in graph && d in graph[name].dependencies + graph[name].peerDependencies
  {
  }

  // The whole function

  function ByName(packages: seq<Package>): Graph {
    if packages == [] then map[]
    else var last := packages[|packages| - 1]; ByName(packages[..|packages| - 1])[last.name := last]
  }

  ghost predicate DistinctNames(packages: seq<Package>) {
    forall i, j :: 0 <= i < j < |packages| ==> packages[i].name != packages[j].name
  }

  lemma {:induction false} ByNameKeys(packages: seq<Package>, k: string)
    ensures k in ByName(packages) <==> exists i :: 0 <= i < |packages| && packages[i].name == k
  {
    if packages != [] {
      var n := |packages| - 1;
      ByNameKeys(packages[..n], k);
      assert forall i :: 0 <= i < n ==> packages[..n][i] == packages[i];
    }
  }

  lemma {:induction false} ByNameSize(packages: seq<Package>)
    ensures |ByName(packages)| <= |packages|
    ensures |ByName(packages)| == |packages| <==> DistinctNames(packages)
  {
    if packages != [] {
      var n := |packages| - 1;
      var init, last := packages[..n], packages[n];
      ByNameSize(init);
      ByNameKeys(init, last.name);
      LastName(packages);
      hide DistinctNames;
      assert ByName(packages).Keys == ByName(init).Keys + {last.name};
    }
  }

  lemma {:induction false} ByNameValue(packages: seq<Package>, i: nat)
    requires DistinctNames(packages) && i < |packages|
    ensures packages[i].name in ByName(packages) && ByName(packages)[packages[i].name] == packages[i]
  {
    var n := |packages| - 1;
    if i < n {
      assert packages[..n][i] == packages[i];
      ByNameValue(packages[..n], i);
    }
  }

  lemma LastName(packages: seq<Package>)
    requires packages != []
    ensures var n := |packages| - 1;
            DistinctNames(packages) <==>
            DistinctNames(packages[..n]) && forall i :: 0 <= i < n ==> packages[..n][i].name != packages[n].name
  {
    var n := |packages| - 1;
    if DistinctNames(packages[..n]) && forall i :: 0 <= i < n ==> packages[..n][i].name != packages[n].name {
      forall i, j | 0 <= i < j < |packages| ensures packages[i].name != packages[j].name {
        assert packages[..n][i] == packages[i];
        if j < n {
          assert packages[..n][j] == packages[j];
        }
      }
    }
    if DistinctNames(packages) {
      forall i | 0 <= i < n ensures packages[..n][i].name != packages[n].name {
        assert packages[..n][i] == packages[i];
      }
    }
  }

  /** Two sequences without repetition and with the same elements are permutations of each other. */
  lemma {:induction false} SameElements(a: seq<Package>, b: seq<Package>)
    requires forall i, j :: 0 <= i < j < |a| ==> a[i] != a[j]
    requires forall i, j :: 0 <= i < j < |b| ==> b[i] != b[j]
    requires forall p :: p in a <==> p in b
    ensures multiset(a) == multiset(b)
  {
    forall p ensures multiset(a)[p] == multiset(b)[p] {
      OnceEach(a, p);
      OnceEach(b, p);
    }
  }

  lemma {:induction false} OnceEach(a: seq<Package>, p: Package)
    requires forall i, j :: 0 <= i < j < |a| ==> a[i] != a[j]
    ensures multiset(a)[p] == if p in a then 1 else 0
  {
    if a != [] {
      OnceEach(a[1..], p);
      assert a == [a[0]] + a[1..];
    }
  }

  /** In the ordered packages, every candidate a package depends on comes before it. */
  ghost predicate Ordered(graph: Graph, order: seq<Package>) {
    forall i, d :: 0 <= i < |order| && DependsOn(graph, order[i].name, d) ==>
      exists j :: 0 <= j < i && order[j].name == d
  }

  /**
    The candidates in an order that publishes dependencies first. It is refused for a repeated name,
    and otherwise exactly when some candidate depends on itself through other candidates.
   */
  method Order(packages: seq<Package>) returns (r: Result<seq<Package>, OrderError>)
    ensures r == Err(Duplicate) <==> !DistinctNames(packages)
    ensures r == Err(Cyclic) <==> DistinctNames(packages) && exists path :: Cycle(ByName(packages), path)
    ensures r.Ok? ==> multiset(r.value) == multiset(packages) && Ordered(ByName(packages), r.value)
  {
    var graph := ByName(packages);
    ByNameSize(packages);
    if |graph| != |packages| {
      return Err(Duplicate);
    }
    var walk := new Walk(graph);
    var names := SortedNames(graph.Keys);
    for i := 0 to |names|
      invariant fresh(walk) && walk.Valid() && walk.stack == [] && walk.graph == graph
      invariant forall j :: 0 <= j < i ==> names[j] in walk.visited
    {
      var error := walk.Visit(names[i]);
      if error.Some? {
        return Err(error.value);
      }
    }
    var order := walk.result;
    assert forall name :: name in graph ==> name in order;
    forall path ensures !Cycle(graph, path) {
      TopologicalIsAcyclic(graph, order, path);
    }
    var ordered := seq(|order|, i requires 0 <= i < |order| && order[i] in graph => graph[order[i]]);
    OrderedPackages(packages, order, ordered);
    r := Ok(ordered);
  }

  lemma OrderedPackages(packages: seq<Package>, order: seq<string>, ordered: seq<Package>)
    requires DistinctNames(packages)
    requires Topological(ByName(packages), order)
    requires forall name :: name in ByName(packages) <==> name in order
    requires |ordered| == |order| && forall i :: 0 <= i < |order| ==> ordered[i] == ByName(packages)[order[i]]
    ensures multiset(ordered) == multiset(packages) && Ordered(ByName(packages), ordered)
  {
    var graph := ByName(packages);
    forall i | 0 <= i < |order| ensures ordered[i].name == order[i] && ordered[i] in packages {
      ByNameKeys(packages, order[i]);
      var k :| 0 <= k < |packages| && packages[k].name == order[i];
      ByNameValue(packages, k);
    }
    forall p | p in packages ensures p in ordered {
      var k :| 0 <= k < |packages| && packages[k] == p;
      ByNameValue(packages, k);
      assert p.name in order;
      var i :| 0 <= i < |order| && order[i] == p.name;
      assert ordered[i] == p;
    }
    SameElements(ordered, packages);
    forall i, d | 0 <= i < |ordered| && DependsOn(graph, ordered[i].name, d)
      ensures exists j :: 0 <= j < i && ordered[j].name == d
    {
      assert d in order[..i];
      var j :| 0 <= j < i && order[j] == d;
      assert ordered[j].name == d;
    }
  }
}
