/** The address codec of `Spreadsheet.cpp`: column numbers to letters and back, cell
    coordinates `(column, row)` to addresses such as `B3` and back, and the address
    grammar `[A-Za-z]+[0-9]+`.

    The encoder `coord_to_col` is bijective base 26 (`Z` is 25, `AA` is 26), but the
    decoder `col_to_coord` reads letters as plain base-26 digits with `A` = 0, so it undoes
    the encoder only on single-letter columns; `ColRoundTrip` states exactly that. */
module Address {
  import opened Text

  /** A cell coordinate `(column, row)`, as the source's `std::pair<int, int>`. */
  type Coord = (int, int)

  function Letter(d: int): (c: char)
    requires 0 <= d < 26
    ensures 'A' <= c <= 'Z'
  {
    ('A' as int + d) as char
  }

  /** `coord_to_col`: while `n >= 0`, put letter `n % 26` in front and set `n := n / 26 - 1`. */
  function CoordToCol(n: int): (col: string)
    ensures n < 0 ==> col == ""
    ensures n >= 0 ==> |col| > 0 && forall i :: 0 <= i < |col| ==> 'A' <= col[i] <= 'Z'
    decreases if n < 0 then 0 else n + 1
  {
    if n < 0 then "" else CoordToCol(n / 26 - 1) + [Letter(n % 26)]
  }

  /** `col_to_coord`: `result = result * 26 + (ch - 'A')` over the characters. Against the
      bijective reading it falls short by 1 + 26 + ... + 26^(k-1) on a `k`-letter column. */
  function ColToCoord(col: string): (r: int)
    ensures r == ColumnNumber(col) - Excess(|col|)
    ensures (forall i :: 0 <= i < |col| ==> 'A' <= col[i] <= 'Z') ==> r >= 0
    decreases |col|
  {
    if col == [] then 0
    else ColToCoord(col[..|col| - 1]) * 26 + (col[|col| - 1] as int - 'A' as int)
  }

  /** The bijective base-26 reading of a column (`A` = 1, ..., `Z` = 26 in every place),
      which is one more than the column number `coord_to_col` encodes. */
  function ColumnNumber(col: string): int
    decreases |col|
  {
    if col == [] then 0
    else ColumnNumber(col[..|col| - 1]) * 26 + (col[|col| - 1] as int - 'A' as int + 1)
  }

  /** `coord_to_col` is bijective base 26: reading its letters back gives `n + 1`. */
  lemma {:induction false} ColumnNumberOfCoordToCol(n: int)
    requires n >= -1
    ensures ColumnNumber(CoordToCol(n)) == n + 1
    decreases n + 1
  {
    if n >= 0 {
      var m := n / 26 - 1;
      var col := CoordToCol(n);
      assert col[..|col| - 1] == CoordToCol(m);
      ColumnNumberOfCoordToCol(m);
    }
  }

  /** Different columns get different letters. */
  lemma CoordToColInjective(m: int, n: int)
    requires m >= 0 && n >= 0
    requires CoordToCol(m) == CoordToCol(n)
    ensures m == n
  {
    ColumnNumberOfCoordToCol(m);
    ColumnNumberOfCoordToCol(n);
  }

  /** What `col_to_coord` loses on a `k`-letter column: 1 + 26 + ... + 26^(k-1). */
  function Excess(k: nat): nat
  {
    if k == 0 then 0 else 26 * Excess(k - 1) + 1
  }

  /** A column has one letter exactly when its number is below 26. */
  lemma CoordToColLength(n: int)
    requires n >= 0
    ensures |CoordToCol(n)| == 1 <==> n < 26
  {
    if n >= 26 {
      assert |CoordToCol(n / 26 - 1)| > 0;
    }
  }

  /** `col_to_coord` undoes `coord_to_col` on columns 0..25 and on no other column. */
  lemma ColRoundTrip(n: int)
    requires n >= 0
    ensures ColToCoord(CoordToCol(n)) == n <==> n < 26
  {
    var col := CoordToCol(n);
    ColumnNumberOfCoordToCol(n);
    CoordToColLength(n);
    assert ColToCoord(col) == n + 1 - Excess(|col|);
    if |col| >= 2 {
      assert Excess(|col|) == 26 * Excess(|col| - 1) + 1 && Excess(|col| - 1) >= 1;
    } else {
      assert Excess(|col|) == 1;
    }
  }

  /** The first column where the round trip fails: 26 is written `AA` and read back as 0. */
  lemma ColRoundTripFailsAt26()
    ensures CoordToCol(26) == "AA"
    ensures ColToCoord("AA") == 0
  {
    assert CoordToCol(0) == "A";
  }

  /** Past `Z`, formulas write into other formulas' cells: column 78 is `CA`, read back as
      52, and column 52 is `BA`, read back as 26. */
  lemma ColumnAliasExample()
    ensures CoordToCol(78) == "CA" && ColToCoord("CA") == 52
    ensures CoordToCol(52) == "BA" && ColToCoord("BA") == 26
  {
    assert CoordToCol(1) == "B";
    assert CoordToCol(2) == "C";
  }

  /** Length of the leading run of letters, the index `address_to_coords` stops at. */
  function AlphaRun(s: string): (n: nat)
    ensures n <= |s|
    ensures forall i :: 0 <= i < n ==> IsAlpha(s[i])
    ensures n < |s| ==> !IsAlpha(s[n])
  {
    if s == [] || !IsAlpha(s[0]) then 0 else 1 + AlphaRun(s[1..])
  }

  /** A leading run of letters is the longest one. */
  lemma AlphaRunUnique(s: string)
    ensures forall k :: 0 < k < |s| && (forall i :: 0 <= i < k ==> IsAlpha(s[i])) && !IsAlpha(s[k]) ==>
      AlphaRun(s) == k
  {
  }

  /** `is_letter_number_format`, the regular expression `^[A-Za-z]+[0-9]+$`: some
      non-empty prefix of letters followed by a non-empty rest of digits. */
  predicate IsLetterNumberFormat(s: string): (b: bool)
    ensures b <==> exists k :: 0 < k < |s| && (forall i :: 0 <= i < k ==> IsAlpha(s[i])) && AllDigits(s[k..])
  {
    var k := AlphaRun(s);
    AlphaRunUnique(s);
    assert forall j :: 0 < j < |s| && AllDigits(s[j..]) ==> IsDigit(s[j..][0]);
    0 < k < |s| && AllDigits(s[k..])
  }

  /** The predicate accepts exactly the strings that split into letters, then digits. */
  lemma LetterNumberFormatSplit(s: string, k: int)
    requires 0 < k < |s|
    ensures (IsLetterNumberFormat(s) && AlphaRun(s) == k) <==>
      ((forall i :: 0 <= i < k ==> IsAlpha(s[i])) && AllDigits(s[k..]))
  {
    if (forall i :: 0 <= i < k ==> IsAlpha(s[i])) && AllDigits(s[k..]) {
      assert IsDigit(s[k..][0]);
    }
  }

  /** `address_to_coords`: the letters give the column through `col_to_coord`, the digits
      the row through `std::stoi`. Every caller passes an address in the grammar (on any
      other string `stoi` would throw). */
  function AddressToCoords(address: string): (c: Coord)
    requires IsLetterNumberFormat(address)
    ensures var k := AlphaRun(address);
      c.0 == ColToCoord(address[..k]) && c.1 == DigitsValue(address[k..]) && c.1 >= 0
  {
    var k := AlphaRun(address);
    StoiOfDigits(address[k..]);
    (ColToCoord(address[..k]), Stoi(address[k..]).value)
  }

  /** `coords_to_address`: column letters followed by `std::to_string` of the row. */
  function CoordsToAddress(c: Coord): (a: string)
    ensures c.0 >= 0 && c.1 >= 0 ==>
      IsLetterNumberFormat(a) && AlphaRun(a) == |CoordToCol(c.0)| &&
      a[..AlphaRun(a)] == CoordToCol(c.0) && a[AlphaRun(a)..] == NatToString(c.1)
  {
    var col, row := CoordToCol(c.0), IntToString(c.1);
    if c.0 >= 0 && c.1 >= 0 then
      assert (col + row)[|col|..] == row && (col + row)[..|col|] == col;
      LetterNumberFormatSplit(col + row, |col|);
      col + row
    else
      col + row
  }

  /** Every non-negative coordinate gets an address in the grammar; decoding it gives the
      row back always, and the column back exactly when the column is below 26. */
  lemma AddressRoundTrip(c: int, r: int)
    requires c >= 0 && r >= 0
    ensures IsLetterNumberFormat(CoordsToAddress((c, r)))
    ensures AddressToCoords(CoordsToAddress((c, r))).1 == r
    ensures AddressToCoords(CoordsToAddress((c, r))) == (c, r) <==> c < 26
  {
    var col, digits := CoordToCol(c), NatToString(r);
    var a := CoordsToAddress((c, r));
    assert a == col + digits;
    assert a[|col|..] == digits;
    LetterNumberFormatSplit(a, |col|);
    assert a[..|col|] == col;
    StoiOfDigits(digits);
    ColRoundTrip(c);
  }

  /** `std::stoi` ignores leading zeros, so two spellings share a cell. */
  lemma LeadingZeroAddress()
    ensures IsLetterNumberFormat("A01") && AddressToCoords("A01") == (0, 1)
    ensures IsLetterNumberFormat("A1") && AddressToCoords("A1") == (0, 1)
  {
    assert AlphaRun("A01") == 1;
    assert "A01"[1..] == "01";
    assert "A01"[..1] == "A";
    StoiOfDigits("01");
    assert DigitsValue("01") == 1 by {
      assert "01"[..1] == "0";
    }
    assert AlphaRun("A1") == 1;
    assert "A1"[1..] == "1";
    assert "A1"[..1] == "A";
    StoiOfDigits("1");
  }
}
