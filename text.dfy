/** The pieces of the C++ standard library that the spreadsheet leans on, restated over
    `string` = `seq<char>`: character classes (`std::isspace`, `std::isalpha` in the C
    locale), extraction of whitespace-separated tokens by `operator>>` on an
    `std::istringstream`, `std::stoi` and `std::to_string`. */
module Text {
  import opened Wrappers

  /** `std::isspace` in the C locale: space, tab, newline, vertical tab, form feed, return. */
  predicate IsSpace(c: char) { c == ' ' || 9 <= c as int <= 13 }

  /** `std::isalpha` in the C locale, the same class as `[A-Za-z]`. */
  predicate IsAlpha(c: char) { 'A' <= c <= 'Z' || 'a' <= c <= 'z' }

  predicate IsDigit(c: char) { '0' <= c <= '9' }

  predicate AllDigits(s: string) { forall i :: 0 <= i < |s| ==> IsDigit(s[i]) }

  /** `contains_letter`: the loop that returns true at the first letter. */
  function ContainsLetter(s: string): (b: bool)
    ensures b <==> exists i :: 0 <= i < |s| && IsAlpha(s[i])
  {
    if s == [] then false
    else
      assert forall i :: 0 < i < |s| ==> s[i] == s[1..][i - 1];
      IsAlpha(s[0]) || ContainsLetter(s[1..])
  }

  /** What one `iss >> token` can deliver: a non-empty run of non-space characters. */
  predicate IsWord(t: string) { |t| > 0 && forall i :: 0 <= i < |t| ==> !IsSpace(t[i]) }

  /** Length of the leading run of non-space characters. */
  function WordLength(s: string): (n: nat)
    ensures n <= |s|
    ensures forall i :: 0 <= i < n ==> !IsSpace(s[i])
    ensures n < |s| ==> IsSpace(s[n])
  {
    if s == [] || IsSpace(s[0]) then 0 else 1 + WordLength(s[1..])
  }

  /** The tokens that the loop `while (iss >> token)` reads from `s`, in order. */
  function Tokens(s: string): (ts: seq<string>)
    ensures forall i :: 0 <= i < |ts| ==> IsWord(ts[i])
    decreases |s|
  {
    if s == [] then []
    else if IsSpace(s[0]) then Tokens(s[1..])
    else
      var n := WordLength(s);
      [s[..n]] + Tokens(s[n..])
  }

  /** The text `" " + t0 + " " + t1 + ...`: how the resolver rebuilds a formula. */
  function Join(ts: seq<string>): string
  {
    if ts == [] then "" else " " + ts[0] + Join(ts[1..])
  }

  /** Appending one more piece appends `" " + piece` to the text. */
  lemma {:induction false} JoinAppend(ts: seq<string>, t: string)
    ensures Join(ts + [t]) == Join(ts) + " " + t
  {
    if ts != [] {
      assert (ts + [t])[1..] == ts[1..] + [t];
      JoinAppend(ts[1..], t);
    }
  }

  lemma WordThenSpace(t: string, rest: string)
    requires IsWord(t)
    requires rest == [] || IsSpace(rest[0])
    ensures Tokens(t + rest) == [t] + Tokens(rest)
  {
    var s := t + rest;
    assert WordLength(s) == |t| by {
      assert forall i :: 0 <= i < |t| ==> s[i] == t[i];
      assert |t| < |s| ==> s[|t|] == rest[0];
    }
    assert s[..|t|] == t;
    assert s[|t|..] == rest;
  }

  /** Reading the tokens back from a rebuilt formula gives the pieces it was built from. */
  lemma {:induction false} TokensOfJoin(ts: seq<string>)
    requires forall i :: 0 <= i < |ts| ==> IsWord(ts[i])
    ensures Tokens(Join(ts)) == ts
  {
    if ts != [] {
      var rest := Join(ts[1..]);
      assert rest == [] || rest[0] == ' ';
      calc {
        Tokens(Join(ts));
        { assert Join(ts) == [' '] + (ts[0] + rest); }
        Tokens(ts[0] + rest);
        { WordThenSpace(ts[0], rest); }
        [ts[0]] + Tokens(rest);
        { TokensOfJoin(ts[1..]); }
        [ts[0]] + ts[1..];
      }
    }
  }

  function DigitValue(c: char): nat
    requires IsDigit(c)
  {
    c as int - '0' as int
  }

  function Digit(d: nat): (c: char)
    requires d < 10
    ensures IsDigit(c) && DigitValue(c) == d
  {
    ('0' as int + d) as char
  }

  /** Length of the leading run of decimal digits. */
  function DigitRun(s: string): (n: nat)
    ensures n <= |s|
    ensures AllDigits(s[..n])
    ensures n < |s| ==> !IsDigit(s[n])
  {
    if s == [] || !IsDigit(s[0]) then 0
    else
      var n := 1 + DigitRun(s[1..]);
      assert s[..n] == [s[0]] + s[1..][..n - 1];
      n
  }

  /** The base-10 value of a digit string. */
  function DigitsValue(s: string): nat
    requires AllDigits(s)
    decreases |s|
  {
    if s == [] then 0 else DigitsValue(s[..|s| - 1]) * 10 + DigitValue(s[|s| - 1])
  }

  /** `std::stoi(t)` on a token: an optional `+` or `-`, then the value of the leading run
      of decimal digits, whatever follows it (`"3x"` reads as 3). With no digit there,
      `stoi` throws `std::invalid_argument`: here `None`. */
  function Stoi(t: string): (r: Option<int>)
    ensures r.Some? <==>
      (|t| > 0 && IsDigit(t[0])) || (|t| > 1 && (t[0] == '+' || t[0] == '-') && IsDigit(t[1]))
  {
    var signed := |t| > 0 && (t[0] == '+' || t[0] == '-');
    var body := if signed then t[1..] else t;
    var n := DigitRun(body);
    if n == 0 then None
    else
      var v: int := DigitsValue(body[..n]);
      Some(if signed && t[0] == '-' then -v else v)
  }

  /** `std::to_string` of a non-negative value: its decimal digits, no leading zero. */
  function NatToString(n: nat): (s: string)
    ensures |s| > 0 && AllDigits(s)
    ensures DigitsValue(s) == n
    decreases n
  {
    if n < 10 then [Digit(n)]
    else
      var s := NatToString(n / 10) + [Digit(n % 10)];
      assert s[..|s| - 1] == NatToString(n / 10);
      s
  }

  /** `std::to_string(int)`: a `-` in front of the digits of a negative value. */
  function IntToString(n: int): (s: string)
    ensures IsWord(s)
    ensures forall i :: 0 <= i < |s| ==> IsDigit(s[i]) || (i == 0 && s[i] == '-' && |s| > 1)
    ensures s[0] == '-' <==> n < 0
  {
    if n < 0 then "-" + NatToString(-n) else NatToString(n)
  }

  lemma StoiOfDigits(s: string)
    requires |s| > 0 && AllDigits(s)
    ensures Stoi(s) == Some(DigitsValue(s))
  {
    assert s[..DigitRun(s)] == s;
  }

  /** `std::stoi` reads back what `std::to_string` wrote. */
  lemma StoiOfIntToString(n: int)
    ensures Stoi(IntToString(n)) == Some(n)
  {
    var s := IntToString(n);
    if n < 0 {
      var body := NatToString(-n);
      assert s[1..] == body;
      StoiOfDigits(body);
    } else {
      StoiOfDigits(s);
    }
  }
}
