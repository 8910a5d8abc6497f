/** Reference substitution (`resolve_references`) and the evaluation loop of
    `resolve_dependencies`, as functions over the dependency map and the grid.

    A formula is rebuilt token by token as `" " + piece`: an address token becomes the
    decimal text of the integer in its cell, any other token is kept. If an address names
    a cell that is missing or does not hold an integer, the whole formula becomes `#ERR`,
    which the evaluator then turns into `Error`. */
module Resolve {
  import opened Wrappers
  import opened Text
  import opened Address
  import opened Cells
  import opened Postfix
  import opened Graph

  /** What the resolver appends for one token; `None` for an address whose cell is
      missing or holds no integer. */
  function Piece(t: string, grid: Grid): (r: Option<string>)
    ensures !IsLetterNumberFormat(t) ==> r == Some(t)
    ensures IsLetterNumberFormat(t) ==>
      (r.Some? <==> AddressToCoords(t) in grid && grid[AddressToCoords(t)].Int?)
    ensures IsLetterNumberFormat(t) && r.Some? ==>
      Stoi(r.value) == Some(grid[AddressToCoords(t)].value)
  {
    if IsLetterNumberFormat(t) && AddressToCoords(t) in grid && grid[AddressToCoords(t)].Int? then
      StoiOfIntToString(grid[AddressToCoords(t)].value);
      Some(IntToString(grid[AddressToCoords(t)].value))
    else if IsLetterNumberFormat(t) then None
    else Some(t)
  }

  /** The pieces of all the tokens, or `None` if some token has none. */
  function Substitute(ts: seq<string>, grid: Grid): (r: Option<seq<string>>)
    ensures r.Some? <==> forall i :: 0 <= i < |ts| ==> Piece(ts[i], grid).Some?
    ensures r.Some? ==> |r.value| == |ts|
    ensures r.Some? ==> forall i :: 0 <= i < |ts| ==> r.value[i] == Piece(ts[i], grid).value
  {
    if ts == [] then Some([])
    else
      var p := Piece(ts[0], grid);
      var rest := Substitute(ts[1..], grid);
      if p.None? then None
      else if rest.None? then
        assert exists i :: 0 <= i < |ts[1..]| && Piece(ts[1..][i], grid).None?;
        None
      else
        assert forall i :: 0 < i < |ts| ==> ts[i] == ts[1..][i - 1];
        Some([p.value] + rest.value)
  }

  /** The formula that `resolve_references` writes back: `#ERR` exactly when some
      address token has no integer cell (the joined pieces start with a space). */
  function ResolveFormula(formula: string, grid: Grid): (r: string)
    ensures r == "#ERR" ==> exists i :: 0 <= i < |Tokens(formula)| && Piece(Tokens(formula)[i], grid).None?
    ensures (exists i :: 0 <= i < |Tokens(formula)| && Piece(Tokens(formula)[i], grid).None?) ==> r == "#ERR"
  {
    var ts := Tokens(formula);
    match Substitute(ts, grid)
    case None =>
      SubstituteNone(ts, grid);
      "#ERR"
    case Some(pieces) =>
      SubstituteSome(ts, grid);
      JoinIsNotErr(pieces);
      Join(pieces)
  }

  /** A token without a piece is what makes the substitution fail. */
  lemma SubstituteNone(ts: seq<string>, grid: Grid)
    requires Substitute(ts, grid).None?
    ensures exists i :: 0 <= i < |ts| && Piece(ts[i], grid).None?
  {
    var i :| 0 <= i < |ts| && !Piece(ts[i], grid).Some?;
  }

  /** A substitution that succeeds left no token without a piece. */
  lemma SubstituteSome(ts: seq<string>, grid: Grid)
    requires Substitute(ts, grid).Some?
    ensures !exists i :: 0 <= i < |ts| && Piece(ts[i], grid).None?
  {
    forall i | 0 <= i < |ts| ensures Piece(ts[i], grid).Some? { }
  }

  /** Joined pieces are empty or begin with a space, so they never read `#ERR`. */
  lemma JoinIsNotErr(pieces: seq<string>)
    ensures Join(pieces) != "#ERR"
  {
    if pieces != [] {
      assert Join(pieces)[0] == ' ' != "#ERR"[0];
    }
  }

  /** One token without a piece makes the whole formula `#ERR`. */
  lemma SubstituteFails(formula: string, grid: Grid, i: int)
    requires 0 <= i < |Tokens(formula)| && Piece(Tokens(formula)[i], grid).None?
    ensures ResolveFormula(formula, grid) == "#ERR"
  {
  }

  /** With a piece for every token, the formula is rebuilt from the pieces. */
  lemma SubstituteSucceeds(formula: string, grid: Grid, pieces: seq<string>)
    requires |pieces| == |Tokens(formula)|
    requires forall j :: 0 <= j < |pieces| ==> Piece(Tokens(formula)[j], grid) == Some(pieces[j])
    ensures ResolveFormula(formula, grid) == Join(pieces)
  {
    assert Substitute(Tokens(formula), grid).value == pieces;
  }

  /** The pieces of a prefix of the tokens, extended by the piece of the next token. */
  lemma PiecesExtend(ts: seq<string>, grid: Grid, pieces: seq<string>, p: string)
    requires |pieces| < |ts|
    requires forall j :: 0 <= j < |pieces| ==> Piece(ts[j], grid) == Some(pieces[j])
    requires Piece(ts[|pieces|], grid) == Some(p)
    ensures forall j :: 0 <= j < |pieces| + 1 ==> Piece(ts[j], grid) == Some((pieces + [p])[j])
  {
  }

  /** Every piece is a single token, and none of them is an address. */
  lemma PieceIsPlainWord(t: string, grid: Grid)
    requires IsWord(t) && Piece(t, grid).Some?
    ensures IsWord(Piece(t, grid).value) && !IsLetterNumberFormat(Piece(t, grid).value)
  {
    var p := Piece(t, grid).value;
    if IsLetterNumberFormat(t) {
      assert !IsAlpha(p[0]);
    }
  }

  /** Reading the tokens back from a resolved formula gives the pieces, or the single
      token `#ERR`. */
  lemma ResolvedTokens(formula: string, grid: Grid)
    ensures var s := Substitute(Tokens(formula), grid);
      Tokens(ResolveFormula(formula, grid)) == if s.Some? then s.value else ["#ERR"]
  {
    var ts := Tokens(formula);
    match Substitute(ts, grid)
    case None =>
      ErrIsOneToken();
    case Some(pieces) =>
      forall i | 0 <= i < |pieces|
        ensures IsWord(pieces[i])
      {
        PieceIsPlainWord(ts[i], grid);
      }
      TokensOfJoin(pieces);
  }

  /** `#ERR` reads back as the single token `#ERR`. */
  lemma ErrIsOneToken()
    ensures Tokens("#ERR") == ["#ERR"]
  {
    assert "#ERR" == Join(["#ERR"])[1..];
    assert !IsSpace("#ERR"[0]) && !IsSpace("#ERR"[1]) && !IsSpace("#ERR"[2]) && !IsSpace("#ERR"[3]);
    assert IsWord(["#ERR"][0]);
    TokensOfJoin(["#ERR"]);
    assert Join(["#ERR"]) == [' '] + "#ERR";
  }

  /** A resolved formula mentions no address, so resolving it again changes nothing. */
  lemma ResolvedHasNoAddresses(formula: string, grid: Grid)
    ensures forall t :: t in Tokens(ResolveFormula(formula, grid)) ==> !IsLetterNumberFormat(t)
  {
    ResolvedTokens(formula, grid);
    var ts := Tokens(formula);
    match Substitute(ts, grid)
    case None =>
      assert !IsAlpha("#ERR"[0]);
    case Some(pieces) =>
      forall i | 0 <= i < |pieces|
        ensures !IsLetterNumberFormat(pieces[i])
      {
        PieceIsPlainWord(ts[i], grid);
      }
  }

  /** An empty formula stays empty; a formula with no address keeps its tokens. */
  lemma ResolveWithoutAddresses(formula: string, grid: Grid)
    requires forall t :: t in Tokens(formula) ==> !IsLetterNumberFormat(t)
    ensures Tokens(ResolveFormula(formula, grid)) == Tokens(formula)
    ensures Tokens(formula) == [] ==> ResolveFormula(formula, grid) == ""
  {
    ResolvedTokens(formula, grid);
  }

  /** The resolved formula evaluates to `Error` when some address could not be
      substituted, and otherwise to the value of the substituted tokens. */
  lemma ResolvedValue(formula: string, grid: Grid)
    ensures var s := Substitute(Tokens(formula), grid);
      PostfixValue(ResolveFormula(formula, grid)) == if s.Some? then Evaluate(s.value) else Error
  {
    ResolvedTokens(formula, grid);
    if Substitute(Tokens(formula), grid).None? {
      ErrorMarkerIsError();
    }
  }

  /** `c` is missing from both grids or holds the same value in both. */
  ghost predicate SameCell(g1: Grid, g2: Grid, c: Coord)
  {
    (c in g1 <==> c in g2) && (c in g1 ==> g1[c] == g2[c])
  }

  /** The addresses a formula mentions. */
  ghost predicate Mentions(formula: string, t: string)
  {
    t in Tokens(formula) && IsLetterNumberFormat(t)
  }

  /** Resolution reads only the cells of the addresses the formula mentions. */
  lemma ResolveFormulaFrame(formula: string, g1: Grid, g2: Grid)
    requires forall t :: Mentions(formula, t) ==> SameCell(g1, g2, AddressToCoords(t))
    ensures ResolveFormula(formula, g1) == ResolveFormula(formula, g2)
  {
    var ts := Tokens(formula);
    assert forall i :: 0 <= i < |ts| ==> Piece(ts[i], g1) == Piece(ts[i], g2) by {
      forall i | 0 <= i < |ts|
        ensures Piece(ts[i], g1) == Piece(ts[i], g2)
      {
        if IsLetterNumberFormat(ts[i]) {
          assert Mentions(formula, ts[i]);
        }
      }
    }
    var s1, s2 := Substitute(ts, g1), Substitute(ts, g2);
    if s1.Some? {
      assert s1.value == s2.value;
    }
  }

  // ---------------------------------------------------------------------------------
  // The loop of `resolve_dependencies`.

  /** The dependency map and the grid. */
  datatype State = State(deps: Deps, grid: Grid)

  /** One pass of the loop body: resolve the formula of `a` and store it back; if the
      result is not empty, evaluate it into the cell of `a`. */
  function ResolveOne(a: string, deps: Deps, grid: Grid): (r: State)
    requires WellFormed(deps) && a in deps
    ensures r.deps.Keys == deps.Keys && WellFormed(r.deps)
    ensures forall b :: b in deps ==> r.deps[b].downstream == deps[b].downstream
    ensures forall b :: b in deps && b != a ==> r.deps[b] == deps[b]
    ensures r.deps[a].formula == ResolveFormula(deps[a].formula, grid)
    ensures forall c :: c != AddressToCoords(a) ==> SameCell(grid, r.grid, c)
    ensures r.deps[a].formula == "" ==> r.grid == grid
    ensures r.deps[a].formula != "" ==>
      AddressToCoords(a) in r.grid && r.grid[AddressToCoords(a)] == PostfixValue(r.deps[a].formula)
    ensures NoEmptyCell(grid) ==> NoEmptyCell(r.grid)
  {
    var f := ResolveFormula(deps[a].formula, grid);
    State(WriteFormula(deps, a, f), WriteValue(grid, AddressToCoords(a), f))
  }

  /** The map with the formula of `a` replaced by `f`. */
  function WriteFormula(deps: Deps, a: string, f: string): (d: Deps)
    requires a in deps
    ensures d.Keys == deps.Keys
    ensures forall b :: b in deps ==> d[b].downstream == deps[b].downstream
    ensures forall b :: b in deps && b != a ==> d[b] == deps[b]
    ensures d[a].formula == f
  {
    deps[a := deps[a].(formula := f)]
  }

  /** The grid after evaluating formula `f` into cell `c`; an empty formula writes nothing. */
  function WriteValue(grid: Grid, c: Coord, f: string): (g: Grid)
    ensures forall d :: d != c ==> SameCell(grid, g, d)
    ensures f == "" ==> g == grid
    ensures f != "" ==> c in g && g[c] == PostfixValue(f)
    ensures NoEmptyCell(grid) ==> NoEmptyCell(g)
  {
    if f == "" then grid else grid[c := PostfixValue(f)]
  }

  /** A resolved formula mentions nothing, so storing it keeps the map well formed and
      keeps every other formula's mentions pointing back at it. */
  lemma ResolveKeepsInvariant(a: string, deps: Deps, grid: Grid)
    requires WellFormed(deps) && EdgesCover(deps) && a in deps
    ensures var r := deps[a := deps[a].(formula := ResolveFormula(deps[a].formula, grid))];
      WellFormed(r) && EdgesCover(r)
  {
    var r := deps[a := deps[a].(formula := ResolveFormula(deps[a].formula, grid))];
    ResolvedHasNoAddresses(deps[a].formula, grid);
    forall b, t | b in r && Mentions(r[b].formula, t)
      ensures t in r && b in r[t].downstream
    {
      assert b != a;
      assert Mentions(deps[b].formula, t);
    }
  }

  /** `resolve_dependencies`' loop over the addresses of `sorted`, in order. */
  function ResolveAll(sorted: seq<string>, deps: Deps, grid: Grid): (r: State)
    requires WellFormed(deps) && Elems(sorted) <= deps.Keys
    ensures r.deps.Keys == deps.Keys && WellFormed(r.deps)
    ensures forall a :: a in deps ==> r.deps[a].downstream == deps[a].downstream
    ensures forall a :: a in deps && a !in sorted ==> r.deps[a] == deps[a]
    ensures NoEmptyCell(grid) ==> NoEmptyCell(r.grid)
    decreases |sorted|
  {
    if sorted == [] then State(deps, grid)
    else
      assert sorted[0] in Elems(sorted);
      var s := ResolveOne(sorted[0], deps, grid);
      ResolveAll(sorted[1..], s.deps, s.grid)
  }

  /** Different keys name different cells. This fails for keys such as `A1` and `A01`,
      or `A1` and `AA1`, which the codec maps to the same coordinates. */
  ghost predicate CellsDistinct(deps: Deps)
  {
    forall a, b ::
      a in deps && b in deps && IsLetterNumberFormat(a) && IsLetterNumberFormat(b) && a != b
      ==> AddressToCoords(a) != AddressToCoords(b)
  }

  lemma DistinctTail(s: seq<string>)
    requires Distinct(s) && s != []
    ensures Distinct(s[1..]) && s[0] !in s[1..] && Elems(s) == {s[0]} + Elems(s[1..])
  {
    assert forall j :: 0 < j < |s| ==> s[j] == s[1..][j - 1];
  }

  /** The loop writes only the cells of the addresses it resolves. */
  lemma {:induction false} ResolveAllFrame(sorted: seq<string>, deps: Deps, grid: Grid, c: Coord)
    requires WellFormed(deps) && Elems(sorted) <= deps.Keys
    requires forall a :: a in sorted ==> AddressToCoords(a) != c
    ensures SameCell(grid, ResolveAll(sorted, deps, grid).grid, c)
    decreases |sorted|
  {
    if sorted != [] {
      assert sorted[0] in Elems(sorted);
      var s := ResolveOne(sorted[0], deps, grid);
      ResolveAllFrame(sorted[1..], s.deps, s.grid, c);
    }
  }

  /** Each resolved address whose formula resolves to nothing keeps its cell, and every
      other one ends up holding the value of its resolved formula. */
  lemma {:induction false} ResolveAllWrites(sorted: seq<string>, deps: Deps, grid: Grid, a: string)
    requires WellFormed(deps) && Elems(sorted) <= deps.Keys
    requires Distinct(sorted) && CellsDistinct(deps) && a in sorted
    ensures var r := ResolveAll(sorted, deps, grid);
      if r.deps[a].formula == "" then SameCell(grid, r.grid, AddressToCoords(a))
      else AddressToCoords(a) in r.grid && r.grid[AddressToCoords(a)] == PostfixValue(r.deps[a].formula)
    decreases |sorted|
  {
    var b := sorted[0];
    DistinctTail(sorted);
    var s := ResolveOne(b, deps, grid);
    var r := ResolveAll(sorted[1..], s.deps, s.grid);
    if a == b {
      assert forall x :: x in sorted[1..] ==> x in Elems(sorted) && x != a;
      ResolveAllFrame(sorted[1..], s.deps, s.grid, AddressToCoords(a));
    } else {
      ResolveAllWrites(sorted[1..], s.deps, s.grid, a);
      assert SameCell(grid, s.grid, AddressToCoords(a));
    }
  }

  /** The resolution order puts every address a formula mentions before that formula's
      own address: no address of `sorted[i]`'s formula appears at or after position `i`,
      and each is a key. */
  ghost predicate UpstreamFirst(sorted: seq<string>, deps: Deps)
    requires Elems(sorted) <= deps.Keys
  {
    forall i, t :: 0 <= i < |sorted| && Mentions(deps[sorted[i]].formula, t) ==>
      t in deps && t !in sorted[i..]
  }

  lemma UpstreamFirstTail(sorted: seq<string>, deps: Deps, deps': Deps)
    requires Elems(sorted) <= deps.Keys && deps'.Keys == deps.Keys && sorted != []
    requires UpstreamFirst(sorted, deps)
    requires forall b :: b in deps && b != sorted[0] ==> deps'[b] == deps[b]
    requires Distinct(sorted)
    ensures Elems(sorted[1..]) <= deps'.Keys && UpstreamFirst(sorted[1..], deps')
  {
    var rest := sorted[1..];
    DistinctTail(sorted);
    forall i, t | 0 <= i < |rest| && Mentions(deps'[rest[i]].formula, t)
      ensures t in deps' && t !in rest[i..]
    {
      assert rest[i] == sorted[i + 1] && rest[i..] == sorted[i + 1..];
    }
  }

  /** The rest of the loop does not write a cell that the first formula mentions. */
  lemma FirstMentionKept(sorted: seq<string>, deps: Deps, grid: Grid, t: string)
    requires WellFormed(deps) && Elems(sorted) <= deps.Keys && sorted != []
    requires Distinct(sorted) && CellsDistinct(deps) && UpstreamFirst(sorted, deps)
    requires Mentions(deps[sorted[0]].formula, t)
    ensures var s := ResolveOne(sorted[0], deps, grid);
      SameCell(grid, ResolveAll(sorted[1..], s.deps, s.grid).grid, AddressToCoords(t))
  {
    var rest := sorted[1..];
    assert t in deps && t !in sorted[0..];
    var c := AddressToCoords(t);
    var s := ResolveOne(sorted[0], deps, grid);
    assert SameCell(grid, s.grid, c) by {
      KeysApart(deps, sorted[0], t);
    }
    assert Elems(rest) <= deps.Keys && forall x :: x in rest ==> AddressToCoords(x) != c by {
      DistinctTail(sorted);
      OthersApart(rest, deps, t);
    }
    ResolveAllFrame(rest, s.deps, s.grid, c);
  }

  /** The formula resolved first keeps its value: the rest of the loop writes no cell that
      it mentions. */
  lemma FirstStaysResolved(sorted: seq<string>, deps: Deps, grid: Grid)
    requires WellFormed(deps) && Elems(sorted) <= deps.Keys && sorted != []
    requires Distinct(sorted) && CellsDistinct(deps) && UpstreamFirst(sorted, deps)
    ensures var s := ResolveOne(sorted[0], deps, grid);
      ResolveFormula(deps[sorted[0]].formula, grid) ==
      ResolveFormula(deps[sorted[0]].formula, ResolveAll(sorted[1..], s.deps, s.grid).grid)
  {
    var s := ResolveOne(sorted[0], deps, grid);
    var r := ResolveAll(sorted[1..], s.deps, s.grid);
    forall t | Mentions(deps[sorted[0]].formula, t)
      ensures SameCell(grid, r.grid, AddressToCoords(t))
    {
      FirstMentionKept(sorted, deps, grid, t);
    }
    ResolveFormulaFrame(deps[sorted[0]].formula, grid, r.grid);
  }

  lemma OthersApart(rest: seq<string>, deps: Deps, t: string)
    requires WellFormed(deps) && CellsDistinct(deps) && Elems(rest) <= deps.Keys
    requires t in deps && t !in rest
    ensures forall x :: x in rest ==> AddressToCoords(x) != AddressToCoords(t)
  {
    forall x | x in rest
      ensures AddressToCoords(x) != AddressToCoords(t)
    {
      assert x in Elems(rest);
      KeysApart(deps, x, t);
    }
  }

  lemma KeysApart(deps: Deps, a: string, b: string)
    requires WellFormed(deps) && CellsDistinct(deps) && a in deps && b in deps && a != b
    ensures AddressToCoords(a) != AddressToCoords(b)
  {
  }

  /** When every formula is resolved after the addresses it mentions, each stored formula
      is its original formula resolved against the final grid. */
  lemma {:induction false} ResolveAllUpstreamFirst(sorted: seq<string>, deps: Deps, grid: Grid, a: string)
    requires WellFormed(deps) && Elems(sorted) <= deps.Keys
    requires Distinct(sorted) && CellsDistinct(deps) && UpstreamFirst(sorted, deps)
    requires a in sorted
    ensures var r := ResolveAll(sorted, deps, grid);
      r.deps[a].formula == ResolveFormula(deps[a].formula, r.grid)
    decreases |sorted|
  {
    var b := sorted[0];
    DistinctTail(sorted);
    var s := ResolveOne(b, deps, grid);
    if a == b {
      FirstStaysResolved(sorted, deps, grid);
    } else {
      UpstreamFirstTail(sorted, deps, s.deps);
      ResolveAllUpstreamFirst(sorted[1..], s.deps, s.grid, a);
    }
  }

  // ---------------------------------------------------------------------------------
  // An acyclic sheet ends up consistent.

  /** Every address a stored formula mentions is a key whose downstream list names the
      formula's address: the edges that registering the formula adds. */
  ghost predicate EdgesCover(deps: Deps)
  {
    forall a, t :: a in deps && Mentions(deps[a].formula, t) ==> t in deps && a in deps[t].downstream
  }

  /** A list of all keys in which every downstream edge goes forward resolves each formula
      after the addresses it mentions. */
  lemma ForwardEdgesUpstreamFirst(deps: Deps, res: seq<string>)
    requires EdgesCover(deps) && Distinct(res) && Elems(res) == deps.Keys
    requires forall i, j ::
      0 <= i < |res| && 0 <= j < |res| && res[i] in deps && res[j] in deps[res[i]].downstream
      ==> i < j
    ensures UpstreamFirst(res, deps)
  {
    forall i, t | 0 <= i < |res| && Mentions(deps[res[i]].formula, t)
      ensures t in deps && t !in res[i..]
    {
      assert t in Elems(res);
      var k :| 0 <= k < |res| && res[k] == t;
      assert k < i;
    }
  }

  /** On an acyclic sheet whose keys name distinct cells, sorting and then resolving
      leaves every formula cell holding the value of its formula evaluated against the
      final grid, and leaves the cell of every key whose formula is empty as it was. */
  lemma AcyclicSheetIsConsistent(deps: Deps, order: seq<string>, grid: Grid)
    requires WellFormed(deps) && EdgesCover(deps) && CellsDistinct(deps)
    requires Acyclic(deps) && IsKeyOrder(deps, order)
    ensures var sorted := TopologicalSort(deps, order, grid);
      sorted.grid == grid && Elems(sorted.search.res) == deps.Keys
    ensures var sorted := TopologicalSort(deps, order, grid);
      var r := ResolveAll(sorted.search.res, deps, sorted.grid);
      forall a :: a in deps ==>
        if r.deps[a].formula == "" then SameCell(grid, r.grid, AddressToCoords(a))
        else (AddressToCoords(a) in r.grid &&
              r.grid[AddressToCoords(a)] == PostfixValue(ResolveFormula(deps[a].formula, r.grid)))
  {
    var sorted := TopologicalSort(deps, order, grid);
    var res := sorted.search.res;
    AcyclicSortIsTopological(deps, order, grid);
    ForwardEdgesUpstreamFirst(deps, res);
    var r := ResolveAll(res, deps, grid);
    forall a | a in deps
      ensures if r.deps[a].formula == "" then SameCell(grid, r.grid, AddressToCoords(a))
        else (AddressToCoords(a) in r.grid &&
              r.grid[AddressToCoords(a)] == PostfixValue(ResolveFormula(deps[a].formula, r.grid)))
    {
      assert a in Elems(res);
      ResolveAllWrites(res, deps, grid, a);
      ResolveAllUpstreamFirst(res, deps, grid, a);
    }
  }
}
