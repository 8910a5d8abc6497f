/** The `Spreadsheet` class: its four fields and the methods that update them in place.
    Each method is proved against the functions of the other modules; the iteration
    order of the `unordered_map` of dependencies is the parameter `order`. */
module Sheet {
  import opened Wrappers
  import opened Text
  import opened Address
  import opened Cells
  import opened Postfix
  import opened Graph
  import opened Resolve
  import opened Parse

  class Spreadsheet {
    var maxCol: int
    var maxRow: int
    var cells: Grid
    var dependencies: Deps

    /** What every method keeps: the dependency map is well formed, every address a
        stored formula mentions points back at it, and no cell holds `Empty`. */
    ghost predicate Valid()
      reads this
    {
      WellFormed(dependencies) && EdgesCover(dependencies) && NoEmptyCell(cells)
    }

    /** The default member initialisers: both maps empty, both sizes zero. */
    constructor()
      ensures Valid()
      ensures cells == map[] && dependencies == map[] && maxCol == 0 && maxRow == 0
    {
      cells := map[];
      dependencies := map[];
      maxCol := 0;
      maxRow := 0;
    }

    /** `clear`: empties both maps and zeroes both sizes. */
    method Clear()
      modifies this
      ensures Valid()
      ensures cells == map[] && dependencies == map[] && maxCol == 0 && maxRow == 0
    {
      cells := map[];
      dependencies := map[];
      maxCol := 0;
      maxRow := 0;
    }

    /** `calculate_postfix`: evaluates `expression` and stores the result in exactly one
        cell. */
    method CalculatePostfix(coords: Coord, expression: string)
      modifies this
      requires Valid()
      ensures Valid()
      ensures cells == old(cells)[coords := PostfixValue(expression)]
      ensures dependencies == old(dependencies) && maxCol == old(maxCol) && maxRow == old(maxRow)
    {
      var v := EvaluatePostfix(expression);
      cells := cells[coords := v];
    }

    /** `parse_tokens`: a cell text with a letter is registered as a formula, any other
        text is evaluated at once. */
    method ParseTokens(coords: Coord, contents: string)
      modifies this
      requires Valid() && coords.0 >= 0 && coords.1 >= 0
      ensures Valid()
      ensures var s := ParseCell(State(old(dependencies), old(cells)), coords, contents);
        dependencies == s.deps && cells == s.grid
      ensures maxCol == old(maxCol) && maxRow == old(maxRow)
    {
      if ContainsLetter(contents) {
        var address := CoordsToAddress(coords);
        if address in dependencies {
          dependencies := dependencies[address := dependencies[address].(formula := contents)];
        } else {
          dependencies := dependencies[address := Entry(contents, [])];
        }
        var tokens := Tokens(contents);
        var i := 0;
        while i < |tokens|
          invariant 0 <= i <= |tokens|
          invariant AddEdges(dependencies, tokens[i..], address) ==
            Register(old(dependencies), address, contents)
          invariant cells == old(cells) && maxCol == old(maxCol) && maxRow == old(maxRow)
        {
          assert tokens[i..][0] == tokens[i] && tokens[i..][1..] == tokens[i + 1..];
          if IsLetterNumberFormat(tokens[i]) {
            var t := tokens[i];
            var e := if t in dependencies then dependencies[t] else Entry("", []);
            dependencies := dependencies[t := e.(downstream := e.downstream + [address])];
          }
          i := i + 1;
        }
        ParseCellKeepsInvariant(State(old(dependencies), old(cells)), coords, contents);
      } else {
        ParseCellKeepsInvariant(State(dependencies, cells), coords, contents);
        CalculatePostfix(coords, contents);
      }
    }

    /** The token loop of `resolve_references`: `formula` with every address token
        replaced by the integer in its cell, each piece after a space, or `#ERR` as soon
        as some address names a cell that is missing or holds no integer. */
    method SubstituteReferences(formula: string) returns (resolved: string)
      ensures resolved == ResolveFormula(formula, cells)
    {
      var tokens := Tokens(formula);
      resolved := "";
      ghost var pieces: seq<string> := [];
      var i := 0;
      while i < |tokens|
        invariant 0 <= i <= |tokens| && |pieces| == i
        invariant forall j :: 0 <= j < i ==> Piece(tokens[j], cells) == Some(pieces[j])
        invariant resolved == Join(pieces)
      {
        var next := TokenPiece(tokens[i]);
        if next.None? {
          SubstituteFails(formula, cells, i);
          return "#ERR";
        }
        var piece := next.value;
        PiecesExtend(tokens, cells, pieces, piece);
        JoinAppend(pieces, piece);
        resolved := resolved + " " + piece;
        pieces := pieces + [piece];
        i := i + 1;
      }
      SubstituteSucceeds(formula, cells, pieces);
    }

    /** One step of the token loop of `resolve_references`: the text an address token is
        replaced by, or `None` where the loop gives up with `#ERR`. */
    method TokenPiece(token: string) returns (piece: Option<string>)
      ensures piece == Piece(token, cells)
    {
      if IsLetterNumberFormat(token) {
        var coords := AddressToCoords(token);
        if coords in cells && cells[coords].Int? {
          piece := Some(IntToString(cells[coords].value));
        } else {
          piece := None;
        }
      } else {
        piece := Some(token);
      }
    }

    /** `resolve_references`: replaces the formula of `address` by its resolved text. */
    method ResolveReferences(address: string)
      modifies this
      requires Valid() && address in dependencies
      ensures Valid()
      ensures dependencies == old(dependencies)[address :=
        old(dependencies)[address].(formula := ResolveFormula(old(dependencies)[address].formula, old(cells)))]
      ensures cells == old(cells) && maxCol == old(maxCol) && maxRow == old(maxRow)
    {
      var resolved := SubstituteReferences(dependencies[address].formula);
      ResolveKeepsInvariant(address, dependencies, cells);
      dependencies := dependencies[address := dependencies[address].(formula := resolved)];
    }

    /** `topological_dfs_helper`: the depth-first visit of `x`, threading `marked`,
        `recStack` and `res` through (the source passes them by reference). */
    method TopologicalDfsHelper(x: string, marked: set<string>, recStack: set<string>, res: seq<string>)
      returns (hasCycle: bool, marked': set<string>, recStack': set<string>, res': seq<string>)
      requires Closed(dependencies) && x in dependencies && x !in marked
      requires marked <= dependencies.Keys && Elems(res) <= dependencies.Keys
      ensures Visited(hasCycle, Search(marked', recStack', res')) ==
        Visit(dependencies, x, Search(marked, recStack, res))
      decreases dependencies.Keys - marked
    {
      marked' := marked + {x};
      recStack' := recStack + {x};
      res' := res;
      hasCycle := false;
      var downstream := dependencies[x].downstream;
      var i := 0;
      while i < |downstream|
        invariant 0 <= i <= |downstream|
        invariant x in marked' && marked < marked' <= dependencies.Keys
        invariant Elems(res') <= dependencies.Keys
        invariant VisitFrom(dependencies, x, downstream[i..], hasCycle, Search(marked', recStack', res')) ==
          Visit(dependencies, x, Search(marked, recStack, res))
      {
        var w := downstream[i];
        assert downstream[i..][0] == w && downstream[i..][1..] == downstream[i + 1..];
        if w in recStack' {
          res' := [x] + res';
          hasCycle := true;
          return;
        } else if w !in marked' {
          var c;
          c, marked', recStack', res' := TopologicalDfsHelper(w, marked', recStack', res');
          hasCycle := hasCycle || c;
        }
        i := i + 1;
      }
      res' := [x] + res';
      recStack' := recStack' - {x};
    }

    /** The loop of `topological_sort_dependencies` that sets the cell of every address
        in `res` to `Error`. */
    method MarkErrorCells(res: seq<string>)
      modifies this
      requires forall a :: a in res ==> IsLetterNumberFormat(a)
      requires NoEmptyCell(cells)
      ensures NoEmptyCell(cells)
      ensures cells == MarkErrors(old(cells), res)
      ensures dependencies == old(dependencies) && maxCol == old(maxCol) && maxRow == old(maxRow)
    {
      var j := 0;
      while j < |res|
        invariant 0 <= j <= |res|
        invariant dependencies == old(dependencies)
        invariant maxCol == old(maxCol) && maxRow == old(maxRow)
        invariant MarkErrors(cells, res[j..]) == MarkErrors(old(cells), res)
      {
        assert res[j..][0] == res[j] && res[j..][1..] == res[j + 1..];
        var coords := AddressToCoords(res[j]);
        cells := cells[coords := Error];
        j := j + 1;
      }
      MarkErrorsEffect(old(cells), res);
    }

    /** One turn of the loop of `topological_sort_dependencies` on a key not yet marked:
        the helper call, and the marking loop when it reports a cycle. */
    method VisitKey(key: string, marked: set<string>, recStack: set<string>, res: seq<string>)
      returns (marked': set<string>, recStack': set<string>, res': seq<string>)
      modifies this
      requires Valid() && key in dependencies && key !in marked
      requires marked <= dependencies.Keys && Elems(res) <= dependencies.Keys
      ensures Valid()
      ensures var v := Visit(old(dependencies), key, Search(marked, recStack, res));
        Search(marked', recStack', res') == v.after &&
        cells == if v.cycle then MarkErrors(old(cells), v.after.res) else old(cells)
      ensures dependencies == old(dependencies) && maxCol == old(maxCol) && maxRow == old(maxRow)
    {
      var c;
      c, marked', recStack', res' := TopologicalDfsHelper(key, marked, recStack, res);
      if c {
        MarkErrorCells(res');
      }
    }

    /** `topological_sort_dependencies`: visits every key not yet marked, in the order
        `order`, and after a visit that reports a cycle sets every address then in `res`
        to `Error`. */
    method TopologicalSortDependencies(order: seq<string>) returns (res: seq<string>)
      modifies this
      requires Valid() && IsKeyOrder(dependencies, order)
      ensures Valid()
      ensures var s := TopologicalSort(old(dependencies), order, old(cells));
        res == s.search.res && cells == s.grid
      ensures dependencies == old(dependencies) && maxCol == old(maxCol) && maxRow == old(maxRow)
    {
      ghost var target := TopologicalSort(dependencies, order, cells);
      var marked: set<string> := {};
      var recStack: set<string> := {};
      res := [];
      var k := 0;
      while k < |order|
        invariant 0 <= k <= |order|
        invariant dependencies == old(dependencies) && NoEmptyCell(cells)
        invariant maxCol == old(maxCol) && maxRow == old(maxRow)
        invariant marked <= dependencies.Keys && Elems(res) <= dependencies.Keys
        invariant Elems(order[k..]) <= dependencies.Keys
        invariant var s := SortFrom(dependencies, order[k..], Search(marked, recStack, res), cells);
          s.search == target.search && s.grid == target.grid
      {
        var key := order[k];
        assert order[k..][0] == key && order[k..][1..] == order[k + 1..];
        SortFromStep(dependencies, order[k..], Search(marked, recStack, res), cells);
        if key !in marked {
          marked, recStack, res := VisitKey(key, marked, recStack, res);
        }
        k := k + 1;
      }
    }

    /** One turn of the loop of `resolve_dependencies`: resolve the formula of `address`,
        then evaluate it into the cell unless it is empty. */
    method ResolveCell(address: string)
      modifies this
      requires Valid() && address in dependencies
      ensures Valid()
      ensures State(dependencies, cells) == ResolveOne(address, old(dependencies), old(cells))
      ensures maxCol == old(maxCol) && maxRow == old(maxRow)
    {
      ResolveReferences(address);
      if dependencies[address].formula != "" {
        var coords := AddressToCoords(address);
        CalculatePostfix(coords, dependencies[address].formula);
      }
    }

    /** The loop of `resolve_dependencies` over the sorted addresses. */
    method ResolveSorted(sorted: seq<string>)
      modifies this
      requires Valid() && Elems(sorted) <= dependencies.Keys
      ensures Valid()
      ensures State(dependencies, cells) == ResolveAll(sorted, old(dependencies), old(cells))
      ensures maxCol == old(maxCol) && maxRow == old(maxRow)
    {
      var k := 0;
      while k < |sorted|
        invariant 0 <= k <= |sorted|
        invariant Valid() && dependencies.Keys == old(dependencies).Keys
        invariant maxCol == old(maxCol) && maxRow == old(maxRow)
        invariant Elems(sorted[k..]) <= dependencies.Keys
        invariant ResolveAll(sorted[k..], dependencies, cells) ==
          ResolveAll(sorted, old(dependencies), old(cells))
      {
        var address := sorted[k];
        assert sorted[k..][0] == address && sorted[k..][1..] == sorted[k + 1..];
        assert address in Elems(sorted[k..]);
        ResolveCell(address);
        k := k + 1;
      }
    }

    /** `resolve_dependencies`: sorts, then resolves each sorted address and evaluates
        its resolved formula unless that is empty. */
    method ResolveDependencies(order: seq<string>)
      modifies this
      requires Valid() && IsKeyOrder(dependencies, order)
      ensures Valid()
      ensures var s := TopologicalSort(old(dependencies), order, old(cells));
        var r := ResolveAll(s.search.res, old(dependencies), s.grid);
        dependencies == r.deps && cells == r.grid
      ensures maxCol == old(maxCol) && maxRow == old(maxRow)
    {
      var sorted := TopologicalSortDependencies(order);
      ResolveSorted(sorted);
    }

    /** The iteration order of the `unordered_map` of dependencies: every key once, in an
        order the model leaves open. */
    method KeyOrder() returns (order: seq<string>)
      ensures IsKeyOrder(dependencies, order)
    {
      var rest := dependencies.Keys;
      order := [];
      while rest != {}
        invariant rest !! Elems(order) && rest + Elems(order) == dependencies.Keys
        invariant Distinct(order)
        decreases |rest|
      {
        var k :| k in rest;
        order := order + [k];
        rest := rest - {k};
      }
    }

    /** `parse_input` on the text already split into rows and comma-separated cells:
        `parse_tokens` on every cell, row by row, keeping `max_col` at the largest column
        index seen, then `resolve_dependencies`, and `max_row` set to the last row index. */
    method ParseInput(rows: seq<seq<string>>)
      modifies this
      requires Valid()
      ensures Valid()
      ensures maxCol == MaxCol(old(maxCol), rows) && maxRow == |rows| - 1
      ensures var p := ParseRows(State(old(dependencies), old(cells)), 0, rows);
        WellFormed(p.deps) &&
        exists order :: IsKeyOrder(p.deps, order) &&
          var s := TopologicalSort(p.deps, order, p.grid);
          var r := ResolveAll(s.search.res, p.deps, s.grid);
          dependencies == r.deps && cells == r.grid
    {
      ghost var start := State(dependencies, cells);
      var row := 0;
      while row < |rows|
        invariant 0 <= row <= |rows|
        invariant Valid()
        invariant ParseRows(State(dependencies, cells), row, rows[row..]) == ParseRows(start, 0, rows)
        invariant MaxCol(maxCol, rows[row..]) == MaxCol(old(maxCol), rows)
      {
        assert rows[row..][0] == rows[row] && rows[row..][1..] == rows[row + 1..];
        ghost var rowStart := State(dependencies, cells);
        ghost var rowMaxCol := maxCol;
        var col := 0;
        while col < |rows[row]|
          invariant 0 <= col <= |rows[row]|
          invariant Valid() && maxCol == rowMaxCol
          invariant ParseCells(State(dependencies, cells), row, col, rows[row][col..]) ==
            ParseCells(rowStart, row, 0, rows[row])
        {
          assert rows[row][col..][0] == rows[row][col];
          assert rows[row][col..][1..] == rows[row][col + 1..];
          ParseTokens((col, row), rows[row][col]);
          col := col + 1;
        }
        maxCol := if maxCol > col - 1 then maxCol else col - 1;
        row := row + 1;
      }
      ParseRowsKeepInvariant(start, 0, rows);
      var order := KeyOrder();
      ghost var parsed := State(dependencies, cells);
      ResolveDependencies(order);
      maxRow := row - 1;
      assert IsKeyOrder(parsed.deps, order);
    }
  }
}
