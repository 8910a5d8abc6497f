/** Formula registration (`parse_tokens`) and the row and column loop of `parse_input`,
    as functions over the dependency map and the grid.

    Content with a letter in it is a formula: it is stored under the cell's address
    (keeping the downstream list already there), and for every token that has the shape
    of an address the cell's address is appended to that token's downstream list, with a
    `{"", []}` entry created first if the token is not yet a key. Any other content is
    evaluated at once into the cell. */
module Parse {
  import opened Text
  import opened Address
  import opened Cells
  import opened Postfix
  import opened Graph
  import opened Resolve

  /** `n` copies of `a`. */
  function Repeat(a: string, n: nat): (s: seq<string>)
    ensures |s| == n && forall i :: 0 <= i < n ==> s[i] == a
  {
    if n == 0 then [] else [a] + Repeat(a, n - 1)
  }

  /** How many tokens of `ts` are the address `k`. */
  function Occurrences(ts: seq<string>, k: string): nat
  {
    if ts == [] then 0
    else (if ts[0] == k && IsLetterNumberFormat(k) then 1 else 0) + Occurrences(ts[1..], k)
  }

  lemma {:induction false} OccurrencesPositive(ts: seq<string>, k: string)
    requires k in ts && IsLetterNumberFormat(k)
    ensures Occurrences(ts, k) > 0
  {
    if ts[0] != k {
      assert k in ts[1..];
      OccurrencesPositive(ts[1..], k);
    }
  }

  /** `dependencies[t].second.push_back(address)`, creating `{"", []}` first if needed. */
  function AddEdge(deps: Deps, t: string, address: string): (r: Deps)
    ensures r.Keys == deps.Keys + {t}
    ensures r[t].formula == (if t in deps then deps[t].formula else "")
    ensures r[t].downstream == (if t in deps then deps[t].downstream else []) + [address]
  {
    var e := if t in deps then deps[t] else Entry("", []);
    deps[t := e.(downstream := e.downstream + [address])]
  }

  /** The loop of `parse_tokens` over the tokens `ts` of a formula stored at `address`. */
  function AddEdges(deps: Deps, ts: seq<string>, address: string): Deps
    decreases |ts|
  {
    if ts == [] then deps
    else AddEdges(if IsLetterNumberFormat(ts[0]) then AddEdge(deps, ts[0], address) else deps,
                  ts[1..], address)
  }

  /** The address tokens of `ts`. */
  function AddressTokens(ts: seq<string>): set<string>
  {
    set t | t in ts && IsLetterNumberFormat(t)
  }

  /** The loop adds exactly the address tokens as keys. */
  lemma {:induction false} AddEdgesKeys(deps: Deps, ts: seq<string>, address: string)
    ensures AddEdges(deps, ts, address).Keys == deps.Keys + AddressTokens(ts)
    decreases |ts|
  {
    if ts != [] {
      var d := if IsLetterNumberFormat(ts[0]) then AddEdge(deps, ts[0], address) else deps;
      AddEdgesKeys(d, ts[1..], address);
      assert AddressTokens(ts) ==
        (if IsLetterNumberFormat(ts[0]) then {ts[0]} else {}) + AddressTokens(ts[1..]);
    }
  }

  /** The loop changes no formula; the keys it adds get an empty one. */
  lemma {:induction false} AddEdgesFormulas(deps: Deps, ts: seq<string>, address: string, k: string)
    requires k in AddEdges(deps, ts, address)
    ensures AddEdges(deps, ts, address)[k].formula == if k in deps then deps[k].formula else ""
    decreases |ts|
  {
    if ts != [] {
      var d := if IsLetterNumberFormat(ts[0]) then AddEdge(deps, ts[0], address) else deps;
      AddEdgesKeys(d, ts[1..], address);
      AddEdgesFormulas(d, ts[1..], address, k);
    }
  }

  /** The loop appends `address` to each key's list once per occurrence of the key. */
  lemma {:induction false} AddEdgesDownstream(deps: Deps, ts: seq<string>, address: string, k: string)
    requires k in AddEdges(deps, ts, address)
    ensures AddEdges(deps, ts, address)[k].downstream ==
      (if k in deps then deps[k].downstream else []) + Repeat(address, Occurrences(ts, k))
    decreases |ts|
  {
    if ts != [] {
      var d := if IsLetterNumberFormat(ts[0]) then AddEdge(deps, ts[0], address) else deps;
      var old_ := if k in deps then deps[k].downstream else [];
      var n := Occurrences(ts[1..], k);
      AddEdgesDownstream(d, ts[1..], address, k);
      if ts[0] == k && IsLetterNumberFormat(k) {
        assert d[k].downstream == old_ + [address];
        assert Repeat(address, n + 1) == [address] + Repeat(address, n);
        assert (old_ + [address]) + Repeat(address, n) == old_ + Repeat(address, n + 1);
      } else {
        assert Occurrences(ts, k) == n;
        assert (if k in d then d[k].downstream else []) == old_;
      }
    }
  }

  /** What `parse_tokens` does to `dependencies` for a formula `contents` at `address`. */
  function Register(deps: Deps, address: string, contents: string): (r: Deps)
    ensures deps.Keys <= r.Keys && address in r && r[address].formula == contents
  {
    var stored := if address in deps then deps[address := deps[address].(formula := contents)]
                  else deps[address := Entry(contents, [])];
    AddEdgesKeys(stored, Tokens(contents), address);
    AddEdgesFormulas(stored, Tokens(contents), address, address);
    AddEdges(stored, Tokens(contents), address)
  }

  /** The entry of one key after registering. */
  lemma RegisterAt(deps: Deps, address: string, contents: string, k: string)
    requires k in Register(deps, address, contents)
    ensures var r := Register(deps, address, contents);
      r[k].formula == (if k == address then contents else if k in deps then deps[k].formula else "") &&
      r[k].downstream == (if k in deps then deps[k].downstream else []) +
                         Repeat(address, Occurrences(Tokens(contents), k))
  {
    var stored := if address in deps then deps[address := deps[address].(formula := contents)]
                  else deps[address := Entry(contents, [])];
    AddEdgesFormulas(stored, Tokens(contents), address, k);
    AddEdgesDownstream(stored, Tokens(contents), address, k);
  }

  /** Registering stores the formula, keeps every other formula (new keys get an empty
      one), keeps every downstream list and appends `address` to it once per occurrence of
      the key as a token. */
  lemma RegisterEffect(deps: Deps, address: string, contents: string)
    ensures Register(deps, address, contents).Keys ==
      deps.Keys + {address} + AddressTokens(Tokens(contents))
    ensures Register(deps, address, contents)[address].formula == contents
    ensures var r := Register(deps, address, contents);
      forall k :: k in r && k != address ==>
        r[k].formula == if k in deps then deps[k].formula else ""
    ensures var r := Register(deps, address, contents);
      forall k :: k in r ==>
        r[k].downstream == (if k in deps then deps[k].downstream else []) +
                           Repeat(address, Occurrences(Tokens(contents), k))
  {
    var stored := if address in deps then deps[address := deps[address].(formula := contents)]
                  else deps[address := Entry(contents, [])];
    AddEdgesKeys(stored, Tokens(contents), address);
    forall k | k in Register(deps, address, contents) {
      RegisterAt(deps, address, contents, k);
    }
  }

  /** Registering a formula at an address in the grammar keeps the map well formed. */
  lemma RegisterKeepsWellFormed(deps: Deps, address: string, contents: string)
    requires WellFormed(deps) && IsLetterNumberFormat(address)
    ensures WellFormed(Register(deps, address, contents))
  {
    var r := Register(deps, address, contents);
    RegisterEffect(deps, address, contents);
    forall a, w | a in r && w in r[a].downstream
      ensures w in r
    {
      var old_ := if a in deps then deps[a].downstream else [];
      var n := Occurrences(Tokens(contents), a);
      assert r[a].downstream == old_ + Repeat(address, n);
      if w !in old_ {
        assert w in Repeat(address, n);
      }
    }
  }

  lemma RegisterCoversMention(deps: Deps, address: string, contents: string, a: string, t: string)
    requires EdgesCover(deps)
    requires a in Register(deps, address, contents)
    requires Mentions(Register(deps, address, contents)[a].formula, t)
    ensures t in Register(deps, address, contents)
    ensures a in Register(deps, address, contents)[t].downstream
  {
    var stored := if address in deps then deps[address := deps[address].(formula := contents)]
                  else deps[address := Entry(contents, [])];
    var ts := Tokens(contents);
    var r := Register(deps, address, contents);
    AddEdgesKeys(stored, ts, address);
    AddEdgesFormulas(stored, ts, address, a);
    if a == address {
      OccurrencesPositive(ts, t);
      AddEdgesDownstream(stored, ts, address, t);
      var old_ := if t in stored then stored[t].downstream else [];
      assert r[t].downstream[|old_|] == address;
    } else {
      assert a in deps && deps[a].formula == r[a].formula;
      AddEdgesDownstream(stored, ts, address, t);
      assert a in stored[t].downstream;
    }
  }

  /** Registering a formula keeps every mentioned address pointing back at each formula
      that mentions it. */
  lemma RegisterKeepsEdgesCover(deps: Deps, address: string, contents: string)
    requires EdgesCover(deps)
    ensures EdgesCover(Register(deps, address, contents))
  {
    var r := Register(deps, address, contents);
    forall a, t | a in r && Mentions(r[a].formula, t)
      ensures t in r && a in r[t].downstream
    {
      RegisterCoversMention(deps, address, contents, a, t);
    }
  }

  /** `parse_tokens` at `coords` with cell text `contents`. */
  function ParseCell(s: State, coords: Coord, contents: string): (r: State)
    ensures s.deps.Keys <= r.deps.Keys && s.grid.Keys <= r.grid.Keys
    ensures ContainsLetter(contents) ==>
      r.grid == s.grid && CoordsToAddress(coords) in r.deps &&
      r.deps[CoordsToAddress(coords)].formula == contents
    ensures !ContainsLetter(contents) ==>
      r.deps == s.deps && coords in r.grid && !r.grid[coords].IsEmpty() &&
      r.grid[coords] == PostfixValue(contents)
  {
    if ContainsLetter(contents) then
      State(Register(s.deps, CoordsToAddress(coords), contents), s.grid)
    else
      State(s.deps, s.grid[coords := PostfixValue(contents)])
  }

  /** Plain content writes its own cell and no other. */
  lemma ParseCellFrame(s: State, coords: Coord, contents: string)
    requires !ContainsLetter(contents)
    ensures forall c :: c != coords ==> SameCell(s.grid, ParseCell(s, coords, contents).grid, c)
  {
  }

  /** The inner loop of `parse_input` over the cells of row `row`, from column `col` on. */
  function ParseCells(s: State, row: nat, col: nat, cells: seq<string>): (r: State)
    ensures s.deps.Keys <= r.deps.Keys && s.grid.Keys <= r.grid.Keys
    decreases |cells|
  {
    if cells == [] then s
    else ParseCells(ParseCell(s, (col, row), cells[0]), row, col + 1, cells[1..])
  }

  /** The outer loop of `parse_input` over the rows, from row `row` on. */
  function ParseRows(s: State, row: nat, rows: seq<seq<string>>): (r: State)
    ensures s.deps.Keys <= r.deps.Keys && s.grid.Keys <= r.grid.Keys
    decreases |rows|
  {
    if rows == [] then s else ParseRows(ParseCells(s, row, 0, rows[0]), row + 1, rows[1..])
  }

  /** Cell text `contents` at column `col` of row `row` is accounted for in `r`: a formula
      has an entry under the cell's address, plain content has a cell in the grid. */
  ghost predicate Placed(r: State, col: int, row: int, contents: string)
  {
    if ContainsLetter(contents) then CoordsToAddress((col, row)) in r.deps else (col, row) in r.grid
  }

  lemma PlacedGrows(a: State, b: State, col: int, row: int, contents: string)
    requires Placed(a, col, row, contents)
    requires a.deps.Keys <= b.deps.Keys && a.grid.Keys <= b.grid.Keys
    ensures Placed(b, col, row, contents)
  {
  }

  /** After the inner loop every cell of the row is accounted for: the text of column `k`
      is placed at column `k`. */
  lemma {:induction false} ParseCellsPlaces(s: State, row: nat, col: nat, cells: seq<string>, k: int)
    requires col <= k < col + |cells|
    ensures Placed(ParseCells(s, row, col, cells), k, row, cells[k - col])
    decreases |cells|
  {
    var next := ParseCell(s, (col, row), cells[0]);
    var r := ParseCells(next, row, col + 1, cells[1..]);
    assert r == ParseCells(s, row, col, cells);
    if k > col {
      assert cells[1..][k - (col + 1)] == cells[k - col];
      ParseCellsPlaces(next, row, col + 1, cells[1..], k);
    } else {
      assert Placed(next, col, row, cells[0]);
      PlacedGrows(next, r, col, row, cells[0]);
    }
  }

  /** After the outer loop every cell of every row is accounted for: the text in column `j`
      of row `q` is placed at `(j, q)`. */
  lemma {:induction false} ParseRowsPlaces(s: State, row: nat, rows: seq<seq<string>>, q: int, j: nat)
    requires row <= q < row + |rows| && j < |rows[q - row]|
    ensures Placed(ParseRows(s, row, rows), j, q, rows[q - row][j])
    decreases |rows|
  {
    var next := ParseCells(s, row, 0, rows[0]);
    var r := ParseRows(next, row + 1, rows[1..]);
    assert r == ParseRows(s, row, rows);
    if q == row {
      ParseCellsPlaces(s, row, 0, rows[0], j);
      PlacedGrows(next, r, j, row, rows[0][j]);
    } else {
      assert rows[1..][q - (row + 1)] == rows[q - row];
      ParseRowsPlaces(next, row + 1, rows[1..], q, j);
    }
  }

  /** `max_col` after the outer loop: at least its old value and one less than the length
      of every row. */
  function MaxCol(m: int, rows: seq<seq<string>>): (r: int)
    ensures r >= m && forall i :: 0 <= i < |rows| ==> r >= |rows[i]| - 1
    ensures r == m || exists i :: 0 <= i < |rows| && r == |rows[i]| - 1
    decreases |rows|
  {
    if rows == [] then m
    else
      assert forall i :: 0 < i < |rows| ==> rows[i] == rows[1..][i - 1];
      MaxCol(if |rows[0]| - 1 > m then |rows[0]| - 1 else m, rows[1..])
  }

  /** Parsing a cell keeps the invariant of the map and the grid. */
  lemma ParseCellKeepsInvariant(s: State, coords: Coord, contents: string)
    requires WellFormed(s.deps) && EdgesCover(s.deps) && NoEmptyCell(s.grid)
    requires coords.0 >= 0 && coords.1 >= 0
    ensures var r := ParseCell(s, coords, contents);
      WellFormed(r.deps) && EdgesCover(r.deps) && NoEmptyCell(r.grid)
  {
    if ContainsLetter(contents) {
      AddressRoundTrip(coords.0, coords.1);
      RegisterKeepsWellFormed(s.deps, CoordsToAddress(coords), contents);
      RegisterKeepsEdgesCover(s.deps, CoordsToAddress(coords), contents);
    }
  }

  lemma {:induction false} ParseCellsKeepInvariant(s: State, row: nat, col: nat, cells: seq<string>)
    requires WellFormed(s.deps) && EdgesCover(s.deps) && NoEmptyCell(s.grid)
    ensures var r := ParseCells(s, row, col, cells);
      WellFormed(r.deps) && EdgesCover(r.deps) && NoEmptyCell(r.grid)
    decreases |cells|
  {
    if cells != [] {
      var next := ParseCell(s, (col, row), cells[0]);
      assert WellFormed(next.deps) && EdgesCover(next.deps) && NoEmptyCell(next.grid) by {
        ParseCellKeepsInvariant(s, (col, row), cells[0]);
      }
      ParseCellsKeepInvariant(next, row, col + 1, cells[1..]);
    }
  }

  lemma {:induction false} ParseRowsKeepInvariant(s: State, row: nat, rows: seq<seq<string>>)
    requires WellFormed(s.deps) && EdgesCover(s.deps) && NoEmptyCell(s.grid)
    ensures var r := ParseRows(s, row, rows);
      WellFormed(r.deps) && EdgesCover(r.deps) && NoEmptyCell(r.grid)
    decreases |rows|
  {
    if rows != [] {
      ParseCellsKeepInvariant(s, row, 0, rows[0]);
      ParseRowsKeepInvariant(ParseCells(s, row, 0, rows[0]), row + 1, rows[1..]);
    }
  }
}
