/** The dependency graph and its depth-first topological sort, as `Spreadsheet.cpp` has them.

    `dependencies` maps an address to `{formula, downstream}`; an address `w` in the
    downstream list of `a` is a cell whose formula mentions `a`. The sort runs
    `topological_dfs_helper` from every key not yet visited, in the (unspecified) iteration
    order of the `unordered_map`, which here is the parameter `order`. The helper has two
    quirks that the model keeps: on a downstream address that is still on `recStack` it puts
    its own node in front of `res` and returns true at once, leaving that node on
    `recStack`; and the caller then sets every address already in `res` to `Error`, not
    only the nodes of the cycle. */
module Graph {
  import opened Address
  import opened Cells

  /** A value of `dependencies`: the `{formula, downstream}` pair. */
  datatype Entry = Entry(formula: string, downstream: seq<string>)

  type Deps = map<string, Entry>

  function Elems(s: seq<string>): set<string>
  {
    set a | a in s
  }

  predicate Distinct(s: seq<string>)
  {
    forall i, j :: 0 <= i < j < |s| ==> s[i] != s[j]
  }

  /** Every downstream address is itself a key. */
  ghost predicate Closed(deps: Deps)
  {
    forall a, w :: a in deps && w in deps[a].downstream ==> w in deps
  }

  /** What every reachable state of `dependencies` satisfies: keys are addresses in the
      grammar, and downstream addresses are keys. */
  ghost predicate WellFormed(deps: Deps)
  {
    (forall a :: a in deps ==> IsLetterNumberFormat(a)) && Closed(deps)
  }

  /** `order` lists every key once: an iteration order of the `unordered_map`. */
  ghost predicate IsKeyOrder(deps: Deps, order: seq<string>)
  {
    Distinct(order) && Elems(order) == deps.Keys
  }

  /** The sets `marked` and `recStack` and the vector `res` that the search threads through. */
  datatype Search = Search(marked: set<string>, recStack: set<string>, res: seq<string>)

  /** What a call of `topological_dfs_helper` returns, with the search state after it. */
  datatype Visited = Visited(cycle: bool, after: Search)

  /** `topological_dfs_helper(x, marked, recStack, res)`: mark `x`, put it on `recStack`,
      and run the loop over its downstream list. */
  function Visit(deps: Deps, x: string, st: Search): (r: Visited)
    requires Closed(deps) && x in deps && x !in st.marked && st.marked <= deps.Keys
    requires Elems(st.res) <= deps.Keys
    ensures st.marked + {x} <= r.after.marked <= deps.Keys
    ensures Elems(r.after.res) <= deps.Keys
    decreases deps.Keys - st.marked, 0
  {
    VisitFrom(deps, x, deps[x].downstream, false,
      Search(st.marked + {x}, st.recStack + {x}, st.res))
  }

  /** The helper's loop over the downstream addresses `ws` still to visit, with the
      `has_cycle` flag so far, followed by what the helper does after the loop. */
  function VisitFrom(deps: Deps, x: string, ws: seq<string>, hasCycle: bool, st: Search): (r: Visited)
    requires Closed(deps) && x in st.marked && st.marked <= deps.Keys
    requires forall w :: w in ws ==> w in deps
    requires Elems(st.res) <= deps.Keys
    ensures st.marked <= r.after.marked <= deps.Keys
    ensures Elems(r.after.res) <= deps.Keys
    ensures hasCycle ==> r.cycle
    decreases deps.Keys - st.marked, |ws| + 1
  {
    if ws == [] then
      Visited(hasCycle, Search(st.marked, st.recStack - {x}, [x] + st.res))
    else if ws[0] in st.recStack then
      Visited(true, Search(st.marked, st.recStack, [x] + st.res))
    else if ws[0] !in st.marked then
      var v := Visit(deps, ws[0], st);
      VisitFrom(deps, x, ws[1..], hasCycle || v.cycle, v.after)
    else
      VisitFrom(deps, x, ws[1..], hasCycle, st)
  }

  /** The loop of `topological_sort_dependencies` that sets every address of `res` to
      `Error`. */
  function MarkErrors(grid: Grid, res: seq<string>): (g: Grid)
    requires forall a :: a in res ==> IsLetterNumberFormat(a)
    ensures grid.Keys <= g.Keys
    decreases |res|
  {
    if res == [] then grid else MarkErrors(grid[AddressToCoords(res[0]) := Error], res[1..])
  }

  /** Marking makes every listed cell `Error`, keeps every other cell, and removes none. */
  lemma {:induction false} MarkErrorsEffect(grid: Grid, res: seq<string>)
    requires forall a :: a in res ==> IsLetterNumberFormat(a)
    ensures var g := MarkErrors(grid, res);
      (forall a :: a in res ==> AddressToCoords(a) in g && g[AddressToCoords(a)] == Error) &&
      (forall c :: c in g ==> (c in grid && g[c] == grid[c]) || g[c] == Error) &&
      (forall c :: c in grid ==> c in g) &&
      (forall c :: c in g && (forall a :: a in res ==> AddressToCoords(a) != c) ==>
        c in grid && g[c] == grid[c])
    decreases |res|
  {
    if res != [] {
      var g1 := grid[AddressToCoords(res[0]) := Error];
      assert forall a :: a in res <==> a == res[0] || a in res[1..];
      MarkErrorsEffect(g1, res[1..]);
    }
  }

  /** The state of `topological_sort_dependencies` after its loop over the keys in `order`:
      the search state, the grid, and whether some helper call of the loop returned true
      (so that the marking loop ran). */
  datatype Sorted = Sorted(search: Search, grid: Grid, reported: bool)

  /** The loop of `topological_sort_dependencies` over the keys `order` still to come. */
  function SortFrom(deps: Deps, order: seq<string>, st: Search, grid: Grid): (r: Sorted)
    requires WellFormed(deps) && Elems(order) <= deps.Keys
    requires st.marked <= deps.Keys && Elems(st.res) <= deps.Keys
    ensures forall c :: c in r.grid ==> (c in grid && r.grid[c] == grid[c]) || r.grid[c] == Error
    ensures forall c :: c in grid ==> c in r.grid
    ensures !r.reported ==> r.grid == grid
    ensures Elems(r.search.res) <= deps.Keys
    decreases |order|
  {
    if order == [] then Sorted(st, grid, false)
    else if order[0] in st.marked then SortFrom(deps, order[1..], st, grid)
    else
      var v := Visit(deps, order[0], st);
      MarkErrorsEffect(grid, v.after.res);
      var r := SortFrom(deps, order[1..], v.after,
        if v.cycle then MarkErrors(grid, v.after.res) else grid);
      r.(reported := r.reported || v.cycle)
  }

  /** One turn of the loop of `topological_sort_dependencies`, for use by its method. */
  lemma SortFromStep(deps: Deps, order: seq<string>, st: Search, grid: Grid)
    requires WellFormed(deps) && Elems(order) <= deps.Keys && order != []
    requires st.marked <= deps.Keys && Elems(st.res) <= deps.Keys
    ensures order[0] in st.marked ==>
      SortFrom(deps, order, st, grid).search == SortFrom(deps, order[1..], st, grid).search &&
      SortFrom(deps, order, st, grid).grid == SortFrom(deps, order[1..], st, grid).grid
    ensures order[0] !in st.marked ==>
      var v := Visit(deps, order[0], st);
      var g := if v.cycle then MarkErrors(grid, v.after.res) else grid;
      SortFrom(deps, order, st, grid).search == SortFrom(deps, order[1..], v.after, g).search &&
      SortFrom(deps, order, st, grid).grid == SortFrom(deps, order[1..], v.after, g).grid
  {
  }

  /** `topological_sort_dependencies` from empty `marked`, `recStack` and `res`. */
  function TopologicalSort(deps: Deps, order: seq<string>, grid: Grid): (r: Sorted)
    requires WellFormed(deps) && Elems(order) <= deps.Keys
    ensures Elems(r.search.res) <= deps.Keys
  {
    SortFrom(deps, order, Search({}, {}, []), grid)
  }

  // ---------------------------------------------------------------------------------
  // Every key is listed exactly once.

  lemma {:induction false} DistinctElemsCount(s: seq<string>)
    requires Distinct(s)
    ensures |Elems(s)| == |s|
  {
    if s != [] {
      assert Elems(s) == {s[0]} + Elems(s[1..]);
      assert s[0] !in Elems(s[1..]);
      DistinctElemsCount(s[1..]);
    }
  }

  lemma PrependFresh(x: string, res: seq<string>)
    requires Distinct(res) && x !in Elems(res)
    ensures Distinct([x] + res) && Elems([x] + res) == {x} + Elems(res)
  {
    assert forall i :: 0 < i < |[x] + res| ==> ([x] + res)[i] == res[i - 1];
  }

  /** A helper call puts every node it newly marks in front of `res`, each once. */
  lemma {:induction false} VisitRecordsMarked(deps: Deps, x: string, st: Search)
    requires Closed(deps) && x in deps && x !in st.marked && st.marked <= deps.Keys
    requires Elems(st.res) <= st.marked && Distinct(st.res)
    ensures var r := Visit(deps, x, st).after;
      Distinct(r.res) && Elems(r.res) == Elems(st.res) + (r.marked - st.marked)
    decreases deps.Keys - st.marked, 0
  {
    VisitFromRecordsMarked(deps, x, deps[x].downstream, false,
      Search(st.marked + {x}, st.recStack + {x}, st.res));
  }

  lemma {:induction false} VisitFromRecordsMarked(deps: Deps, x: string, ws: seq<string>, hasCycle: bool, st: Search)
    requires Closed(deps) && x in st.marked && st.marked <= deps.Keys
    requires forall w :: w in ws ==> w in deps
    requires Elems(st.res) <= st.marked && x !in Elems(st.res) && Distinct(st.res)
    ensures var r := VisitFrom(deps, x, ws, hasCycle, st).after;
      Distinct(r.res) && Elems(r.res) == Elems(st.res) + (r.marked - st.marked) + {x}
    decreases deps.Keys - st.marked, |ws| + 1
  {
    if ws == [] || ws[0] in st.recStack {
      PrependFresh(x, st.res);
    } else if ws[0] !in st.marked {
      var v := Visit(deps, ws[0], st);
      VisitRecordsMarked(deps, ws[0], st);
      VisitFromRecordsMarked(deps, x, ws[1..], hasCycle || v.cycle, v.after);
    } else {
      VisitFromRecordsMarked(deps, x, ws[1..], hasCycle, st);
    }
  }

  lemma {:induction false} SortFromRecordsMarked(deps: Deps, order: seq<string>, st: Search, grid: Grid)
    requires WellFormed(deps) && Elems(order) <= deps.Keys && st.marked <= deps.Keys
    requires Elems(st.res) == st.marked && Distinct(st.res)
    ensures var r := SortFrom(deps, order, st, grid).search;
      Distinct(r.res) && Elems(r.res) == r.marked && st.marked + Elems(order) <= r.marked <= deps.Keys
    decreases |order|
  {
    if order != [] {
      assert Elems(order) == {order[0]} + Elems(order[1..]);
      if order[0] in st.marked {
        SortFromRecordsMarked(deps, order[1..], st, grid);
      } else {
        var v := Visit(deps, order[0], st);
        VisitRecordsMarked(deps, order[0], st);
        SortFromRecordsMarked(deps, order[1..], v.after,
          if v.cycle then MarkErrors(grid, v.after.res) else grid);
      }
    }
  }

  /** The sort returns every key of `dependencies` exactly once, in any iteration order. */
  lemma SortListsEveryKeyOnce(deps: Deps, order: seq<string>, grid: Grid)
    requires WellFormed(deps) && IsKeyOrder(deps, order)
    ensures var res := TopologicalSort(deps, order, grid).search.res;
      Distinct(res) && Elems(res) == deps.Keys && |res| == |deps.Keys|
  {
    SortFromRecordsMarked(deps, order, Search({}, {}, []), grid);
    DistinctElemsCount(TopologicalSort(deps, order, grid).search.res);
  }

  /** Once a helper call of the outer loop returns true, every address then in `res` is
      `Error` when the sort ends. */
  lemma ReportMarksResult(deps: Deps, order: seq<string>, st: Search, grid: Grid)
    requires WellFormed(deps) && Elems(order) <= deps.Keys
    requires st.marked <= deps.Keys && Elems(st.res) <= deps.Keys
    requires order != [] && order[0] !in st.marked
    requires Visit(deps, order[0], st).cycle
    ensures var r := SortFrom(deps, order, st, grid);
      forall a :: a in Visit(deps, order[0], st).after.res ==>
        AddressToCoords(a) in r.grid && r.grid[AddressToCoords(a)] == Error
  {
    assert Elems(order) == {order[0]} + Elems(order[1..]);
    MarkErrorsEffect(grid, Visit(deps, order[0], st).after.res);
  }

  // ---------------------------------------------------------------------------------
  // Cycles: the sort reports one exactly when the graph has one.

  /** `p` follows downstream edges. */
  ghost predicate IsPath(deps: Deps, p: seq<string>)
  {
    |p| >= 1 && (forall i :: 0 <= i < |p| ==> p[i] in deps) &&
    (forall i :: 0 <= i < |p| - 1 ==> p[i + 1] in deps[p[i]].downstream)
  }

  /** No path of one or more edges comes back to where it started. */
  ghost predicate Acyclic(deps: Deps)
  {
    forall p :: IsPath(deps, p) && |p| >= 2 ==> p[0] != p[|p| - 1]
  }

  /** Every downstream address of a listed node is listed after it. */
  ghost predicate TopoClosed(deps: Deps, res: seq<string>)
  {
    forall i, w :: 0 <= i < |res| && res[i] in deps && w in deps[res[i]].downstream ==>
      w in res[i + 1..]
  }

  lemma TopoClosedPrepend(deps: Deps, x: string, res: seq<string>)
    requires TopoClosed(deps, res) && x in deps
    requires forall w :: w in deps[x].downstream ==> w in res
    ensures TopoClosed(deps, [x] + res)
  {
    var s := [x] + res;
    forall i, w | 0 <= i < |s| && s[i] in deps && w in deps[s[i]].downstream
      ensures w in s[i + 1..]
    {
      assert s[1..] == res;
      if i > 0 {
        assert s[i] == res[i - 1];
        assert s[i + 1..] == res[i..];
      }
    }
  }

  lemma PathExtend(deps: Deps, p: seq<string>, w: string)
    requires IsPath(deps, p) && w in deps && w in deps[p[|p| - 1]].downstream
    ensures IsPath(deps, p + [w])
  {
    var q := p + [w];
    assert forall i :: 0 <= i < |p| ==> q[i] == p[i];
  }

  /** A downstream edge from the end of a path back onto the path closes a cycle. */
  lemma BackEdgeMakesCycle(deps: Deps, path: seq<string>, x: string, w: string)
    requires IsPath(deps, path + [x]) && x in deps && w in deps
    requires w in deps[x].downstream && w in Elems(path) + {x}
    ensures !Acyclic(deps)
  {
    var q := path + [x];
    assert q[|q| - 1] == x;
    if w != x {
      assert w in path;
      var j :| 0 <= j < |path| && path[j] == w;
      assert q[j] == w;
    }
    var k :| 0 <= k < |q| && q[k] == w;
    var p := q[k..] + [w];
    PathExtend(deps, q[k..], w);
    assert p[0] == w && p[|p| - 1] == w && |p| >= 2;
  }

  /** After the first downstream address is finished, the rest of the loop still covers
      every downstream address that is not in `res`. */
  lemma ChildDone(deps: Deps, x: string, ws: seq<string>, res: seq<string>, res': seq<string>)
    requires x in deps && ws != [] && ws[0] in res' && Elems(res) <= Elems(res')
    requires forall w :: w in deps[x].downstream ==> w in ws || w in res
    ensures forall w :: w in deps[x].downstream ==> w in ws[1..] || w in res'
  {
    forall w | w in deps[x].downstream
      ensures w in ws[1..] || w in res'
    {
      if w in res {
        assert w in Elems(res);
      } else if w != ws[0] {
        assert ws == [ws[0]] + ws[1..];
      }
    }
  }

  /** A helper call that reports no cycle leaves `recStack` as it found it, puts every node
      it finished in front of all of its downstream nodes, and leaves no marked node that
      is neither on `recStack` nor in `res`. */
  lemma {:induction false} VisitQuiet(deps: Deps, x: string, st: Search)
    requires Closed(deps) && x in deps && x !in st.marked && st.marked <= deps.Keys
    requires Elems(st.res) <= st.marked && Distinct(st.res)
    requires st.recStack <= st.marked <= st.recStack + Elems(st.res)
    requires TopoClosed(deps, st.res)
    ensures var r := Visit(deps, x, st);
      !r.cycle ==>
        r.after.recStack == st.recStack && TopoClosed(deps, r.after.res) &&
        r.after.marked <= r.after.recStack + Elems(r.after.res)
    decreases deps.Keys - st.marked, 0
  {
    VisitFromQuiet(deps, x, deps[x].downstream, false,
      Search(st.marked + {x}, st.recStack + {x}, st.res), st.recStack);
  }

  lemma {:induction false} VisitFromQuiet(deps: Deps, x: string, ws: seq<string>, hasCycle: bool, st: Search, outer: set<string>)
    requires Closed(deps) && x in deps && x in st.marked && st.marked <= deps.Keys
    requires forall w :: w in ws ==> w in deps[x].downstream
    requires forall w :: w in deps[x].downstream ==> w in ws || w in st.res
    requires Elems(st.res) <= st.marked && x !in Elems(st.res) && Distinct(st.res)
    requires st.recStack == outer + {x} && x !in outer
    requires st.recStack <= st.marked <= st.recStack + Elems(st.res)
    requires TopoClosed(deps, st.res)
    ensures var r := VisitFrom(deps, x, ws, hasCycle, st);
      !r.cycle ==>
        !hasCycle && r.after.recStack == outer && TopoClosed(deps, r.after.res) &&
        r.after.marked <= r.after.recStack + Elems(r.after.res)
    decreases deps.Keys - st.marked, |ws| + 1
  {
    if ws == [] {
      TopoClosedPrepend(deps, x, st.res);
    } else if ws[0] in st.recStack {
    } else if ws[0] !in st.marked {
      var v := Visit(deps, ws[0], st);
      VisitRecordsMarked(deps, ws[0], st);
      VisitQuiet(deps, ws[0], st);
      if !v.cycle {
        ChildDone(deps, x, ws, st.res, v.after.res);
        VisitFromQuiet(deps, x, ws[1..], hasCycle, v.after, outer);
      }
    } else {
      VisitFromQuiet(deps, x, ws[1..], hasCycle, st, outer);
    }
  }

  /** In an acyclic graph a helper call started from the end of a path of `recStack`
      nodes reports no cycle. */
  lemma {:induction false} VisitAcyclic(deps: Deps, x: string, st: Search, path: seq<string>)
    requires Closed(deps) && Acyclic(deps)
    requires x in deps && x !in st.marked && st.marked <= deps.Keys
    requires Elems(st.res) <= st.marked && Distinct(st.res)
    requires st.recStack <= st.marked <= st.recStack + Elems(st.res)
    requires TopoClosed(deps, st.res)
    requires IsPath(deps, path + [x]) && st.recStack == Elems(path)
    ensures !Visit(deps, x, st).cycle
    decreases deps.Keys - st.marked, 0
  {
    VisitFromAcyclic(deps, x, deps[x].downstream, false,
      Search(st.marked + {x}, st.recStack + {x}, st.res), path);
  }

  lemma {:induction false} VisitFromAcyclic(deps: Deps, x: string, ws: seq<string>, hasCycle: bool, st: Search, path: seq<string>)
    requires Closed(deps) && Acyclic(deps)
    requires x in deps && x in st.marked && st.marked <= deps.Keys
    requires forall w :: w in ws ==> w in deps[x].downstream
    requires forall w :: w in deps[x].downstream ==> w in ws || w in st.res
    requires Elems(st.res) <= st.marked && x !in Elems(st.res) && Distinct(st.res)
    requires IsPath(deps, path + [x]) && x !in Elems(path)
    requires st.recStack == Elems(path) + {x}
    requires st.recStack <= st.marked <= st.recStack + Elems(st.res)
    requires TopoClosed(deps, st.res)
    ensures VisitFrom(deps, x, ws, hasCycle, st).cycle == hasCycle
    decreases deps.Keys - st.marked, |ws| + 1
  {
    if ws == [] {
    } else if ws[0] in st.recStack {
      BackEdgeMakesCycle(deps, path, x, ws[0]);
      assert false;
    } else if ws[0] !in st.marked {
      var w := ws[0];
      var v := Visit(deps, w, st);
      PathExtend(deps, path + [x], w);
      assert Elems(path + [x]) == st.recStack;
      VisitAcyclic(deps, w, st, path + [x]);
      VisitRecordsMarked(deps, w, st);
      VisitQuiet(deps, w, st);
      ChildDone(deps, x, ws, st.res, v.after.res);
      VisitFromAcyclic(deps, x, ws[1..], hasCycle || v.cycle, v.after, path);
    } else {
      VisitFromAcyclic(deps, x, ws[1..], hasCycle, st, path);
    }
  }

  /** The outer loop over `order`, when no helper call reports a cycle, leaves `recStack`
      empty and lists every node before its downstream nodes. */
  lemma {:induction false} SortFromQuiet(deps: Deps, order: seq<string>, st: Search, grid: Grid)
    requires WellFormed(deps) && Elems(order) <= deps.Keys && st.marked <= deps.Keys
    requires Elems(st.res) == st.marked && Distinct(st.res)
    requires st.recStack == {} && TopoClosed(deps, st.res)
    ensures var r := SortFrom(deps, order, st, grid);
      !r.reported ==> r.search.recStack == {} && TopoClosed(deps, r.search.res)
    decreases |order|
  {
    if order != [] {
      assert Elems(order) == {order[0]} + Elems(order[1..]);
      if order[0] in st.marked {
        SortFromQuiet(deps, order[1..], st, grid);
      } else {
        var v := Visit(deps, order[0], st);
        VisitRecordsMarked(deps, order[0], st);
        VisitQuiet(deps, order[0], st);
        if !v.cycle {
          SortFromQuiet(deps, order[1..], v.after, grid);
        }
      }
    }
  }

  /** On an acyclic graph no helper call of the outer loop reports a cycle. */
  lemma {:induction false} SortFromAcyclic(deps: Deps, order: seq<string>, st: Search, grid: Grid)
    requires WellFormed(deps) && Acyclic(deps) && Elems(order) <= deps.Keys && st.marked <= deps.Keys
    requires Elems(st.res) == st.marked && Distinct(st.res)
    requires st.recStack == {} && TopoClosed(deps, st.res)
    ensures !SortFrom(deps, order, st, grid).reported
    decreases |order|
  {
    if order != [] {
      assert Elems(order) == {order[0]} + Elems(order[1..]);
      if order[0] in st.marked {
        SortFromAcyclic(deps, order[1..], st, grid);
      } else {
        var x := order[0];
        assert IsPath(deps, [] + [x]);
        VisitAcyclic(deps, x, st, []);
        VisitRecordsMarked(deps, x, st);
        VisitQuiet(deps, x, st);
        SortFromAcyclic(deps, order[1..], Visit(deps, x, st).after, grid);
      }
    }
  }

  /** The position of `a` in `res`. */
  function IndexOf(res: seq<string>, a: string): (i: nat)
    requires a in res
    ensures i < |res| && res[i] == a
  {
    if res[0] == a then 0 else 1 + IndexOf(res[1..], a)
  }

  /** In a list closed under downstream edges, every edge goes forward. */
  lemma EdgeAdvances(deps: Deps, res: seq<string>, i: int, w: string)
    requires Distinct(res) && TopoClosed(deps, res)
    requires 0 <= i < |res| && res[i] in deps && w in deps[res[i]].downstream
    ensures w in res && i < IndexOf(res, w)
  {
    assert w in res[i + 1..];
    var k :| 0 <= k < |res[i + 1..]| && res[i + 1..][k] == w;
    assert res[i + 1 + k] == w;
  }

  lemma {:induction false} PathAdvances(deps: Deps, res: seq<string>, p: seq<string>)
    requires Distinct(res) && deps.Keys <= Elems(res) && TopoClosed(deps, res)
    requires IsPath(deps, p) && |p| >= 2
    ensures p[0] in res && p[|p| - 1] in res && IndexOf(res, p[0]) < IndexOf(res, p[|p| - 1])
    decreases |p|
  {
    var n := |p|;
    assert p[n - 2] in Elems(res);
    EdgeAdvances(deps, res, IndexOf(res, p[n - 2]), p[n - 1]);
    if n > 2 {
      var q := p[..n - 1];
      assert IsPath(deps, q);
      PathAdvances(deps, res, q);
    }
  }

  /** A graph whose keys can be listed so that every edge goes forward has no cycle. */
  lemma TopoOrderAcyclic(deps: Deps, res: seq<string>)
    requires Distinct(res) && deps.Keys <= Elems(res) && TopoClosed(deps, res)
    ensures Acyclic(deps)
  {
    forall p | IsPath(deps, p) && |p| >= 2
      ensures p[0] != p[|p| - 1]
    {
      PathAdvances(deps, res, p);
    }
  }

  /** The sort reports a cycle, and so runs its marking loop, exactly when the dependency
      graph has a cycle, whatever the iteration order of the keys. */
  lemma SortReportsExactlyCycles(deps: Deps, order: seq<string>, grid: Grid)
    requires WellFormed(deps) && IsKeyOrder(deps, order)
    ensures TopologicalSort(deps, order, grid).reported <==> !Acyclic(deps)
  {
    var st := Search({}, {}, []);
    var r := TopologicalSort(deps, order, grid);
    SortFromRecordsMarked(deps, order, st, grid);
    if !r.reported {
      SortFromQuiet(deps, order, st, grid);
      TopoOrderAcyclic(deps, r.search.res);
    }
    if Acyclic(deps) {
      SortFromAcyclic(deps, order, st, grid);
    }
  }

  /** On an acyclic graph the sort leaves the grid alone and returns every key once, each
      before all of its downstream addresses. */
  lemma AcyclicSortIsTopological(deps: Deps, order: seq<string>, grid: Grid)
    requires WellFormed(deps) && Acyclic(deps) && IsKeyOrder(deps, order)
    ensures var r := TopologicalSort(deps, order, grid);
      r.grid == grid && Distinct(r.search.res) && Elems(r.search.res) == deps.Keys
    ensures var res := TopologicalSort(deps, order, grid).search.res;
      forall i, j ::
        0 <= i < |res| && 0 <= j < |res| && res[i] in deps && res[j] in deps[res[i]].downstream
        ==> i < j
  {
    var st := Search({}, {}, []);
    var res := TopologicalSort(deps, order, grid).search.res;
    SortFromRecordsMarked(deps, order, st, grid);
    SortFromAcyclic(deps, order, st, grid);
    SortFromQuiet(deps, order, st, grid);
    forall i, j | 0 <= i < |res| && 0 <= j < |res| && res[i] in deps &&
        res[j] in deps[res[i]].downstream
      ensures i < j
    {
      EdgeAdvances(deps, res, i, res[j]);
    }
  }
}
