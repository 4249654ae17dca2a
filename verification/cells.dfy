/** Cell values of a loaded spreadsheet and their textual form.

    A cell is a blank read from the spreadsheet (`Null`, NaN to the
    library), the missing marker written into a column that the alignment
    adds (`Na`, the library's `pd.NA`), text, or an integer. The positional
    comparisons of the dashboard cast a whole column to strings before
    comparing, and what a value becomes depends on the column's type, so
    column types and the textual rendering are defined here once. */
module Cells {

  datatype Cell = Null | Na | Str(s: string) | Num(n: int)

  /** `isna()`: both kinds of missing value. */
  predicate IsMissing(c: Cell) {
    c.Null? || c.Na?
  }

  /** The storage type the spreadsheet reader gives a column: integers
      alone are `int64`; integers and blanks are `float64`; anything holding
      text or the `pd.NA` marker is `object`. */
  datatype Dtype = Int64 | Float64 | Object

  /** The type a single value asks for. */
  function CellType(c: Cell): Dtype {
    match c
    case Num(_) => Int64
    case Null => Float64
    case _ => Object
  }

  /** The narrowest type holding values of both types. */
  function Widest(a: Dtype, b: Dtype): Dtype {
    if a == Object || b == Object then Object
    else if a == Float64 || b == Float64 then Float64
    else Int64
  }

  function ColumnType(c: seq<Cell>): Dtype {
    if |c| == 0 then Int64 else Widest(CellType(c[0]), ColumnType(c[1..]))
  }

  /** A column is `object` exactly when it holds text or the marker, and
      otherwise `float64` exactly when it holds a blank. */
  lemma {:induction false} ColumnTypeOfCells(c: seq<Cell>)
    ensures ColumnType(c) == Object <==> exists i :: 0 <= i < |c| && (c[i].Str? || c[i].Na?)
    ensures ColumnType(c) == Float64 <==>
              (forall i :: 0 <= i < |c| ==> c[i].Num? || c[i].Null?) && exists i :: 0 <= i < |c| && c[i].Null?
  {
    if |c| > 0 {
      ColumnTypeOfCells(c[1..]);
      assert forall i :: 1 <= i < |c| ==> c[i] == c[1..][i - 1];
      if exists i :: 0 <= i < |c[1..]| && (c[1..][i].Str? || c[1..][i].Na?) {
        var i :| 0 <= i < |c[1..]| && (c[1..][i].Str? || c[1..][i].Na?);
        assert c[i + 1] == c[1..][i];
      }
      if exists i :: 0 <= i < |c[1..]| && c[1..][i].Null? {
        var i :| 0 <= i < |c[1..]| && c[1..][i].Null?;
        assert c[i + 1] == c[1..][i];
      }
    }
  }

  /** The text a blank renders as. */
  const NullText: string := "nan"

  /** The text the `pd.NA` marker renders as. */
  const NaText: string := "<NA>"

  function DigitChar(d: nat): (c: char)
    requires d < 10
    ensures '0' <= c <= '9'
  {
    ['0', '1', '2', '3', '4', '5', '6', '7', '8', '9'][d]
  }

  lemma DigitCharInjective(a: nat, b: nat)
    requires a < 10 && b < 10
    ensures DigitChar(a) == DigitChar(b) <==> a == b
  {
  }

  predicate AllDigits(s: string) {
    forall i :: 0 <= i < |s| ==> '0' <= s[i] <= '9'
  }

  /** Decimal digits of a natural number, most significant first. */
  function Digits(n: nat): (r: string)
    ensures |r| >= 1
    ensures AllDigits(r)
    ensures n < 10 <==> |r| == 1
  {
    if n < 10 then [DigitChar(n)] else Digits(n / 10) + [DigitChar(n % 10)]
  }

  /** Distinct numbers have distinct decimal forms. */
  lemma {:induction false} DigitsInjective(a: nat, b: nat)
    requires Digits(a) == Digits(b)
    ensures a == b
  {
    var da, db := Digits(a), Digits(b);
    if a < 10 {
      assert |db| == 1;
      DigitCharInjective(a, b);
    } else {
      assert b >= 10;
      assert da[|da| - 1] == DigitChar(a % 10) && db[|db| - 1] == DigitChar(b % 10);
      DigitCharInjective(a % 10, b % 10);
      assert Digits(a / 10) == da[..|da| - 1] == db[..|db| - 1] == Digits(b / 10);
      DigitsInjective(a / 10, b / 10);
    }
  }

  /** Decimal form of an integer, with a leading minus sign when negative. */
  function IntText(n: int): (r: string)
    ensures |r| >= 1
    ensures n >= 0 <==> '0' <= r[0] <= '9'
    ensures n < 0 ==> r[0] == '-'
  {
    if n < 0 then "-" + Digits(-n) else Digits(n)
  }

  lemma IntTextInjective(a: int, b: int)
    ensures IntText(a) == IntText(b) <==> a == b
  {
    if IntText(a) == IntText(b) {
      if a < 0 {
        assert b < 0;
        assert Digits(-a) == IntText(a)[1..] == IntText(b)[1..] == Digits(-b);
        DigitsInjective(-a, -b);
      } else {
        DigitsInjective(a, b);
      }
    }
  }

  /** The string a cell of a column of type `d` becomes under `astype(str)`:
      an integer stored as a float gains a ".0". */
  function Text(c: Cell, d: Dtype): string {
    match c
    case Null => NullText
    case Na => NaText
    case Str(s) => s
    case Num(n) => if d == Float64 then IntText(n) + ".0" else IntText(n)
  }

  /** The string row `i` of column `c` becomes when the column is cast. */
  function ColumnText(c: seq<Cell>, i: nat): string
    requires i < |c|
  {
    Text(c[i], ColumnType(c))
  }

  /** Within one column type, textual equality is coarser than value
      equality: equal cells have equal text, and two numbers have equal text
      only when they are equal. */
  lemma TextRespectsValues(a: Cell, b: Cell, d: Dtype)
    ensures a == b ==> Text(a, d) == Text(b, d)
    ensures a.Num? && b.Num? ==> (Text(a, d) == Text(b, d) <==> a == b)
  {
    if a.Num? && b.Num? {
      IntTextInjective(a.n, b.n);
      if d == Float64 && Text(a, d) == Text(b, d) {
        var ta, tb := IntText(a.n), IntText(b.n);
        assert ta == (ta + ".0")[..|ta|];
        assert |ta| == |tb|;
        assert tb == (tb + ".0")[..|tb|];
      }
    }
  }

  /** The same number renders differently in an integer column and in a
      column that also holds a blank. */
  lemma TypeChangesText()
    ensures Text(Num(10), Int64) == "10"
    ensures Text(Num(10), Float64) == "10.0"
  {
    assert Digits(10) == Digits(1) + [DigitChar(0)];
  }

  /** After the cast, a number of an integer column and the string of its
      digits are the same. */
  lemma NumberMatchesItsDigits()
    ensures Text(Num(10), Int64) == Text(Str("10"), Object)
    ensures Num(10) != Str("10")
  {
    TypeChangesText();
  }

  /** After the cast, a blank and the string "nan" are the same, while the
      marker of an added column is neither. */
  lemma MissingTexts(d: Dtype, e: Dtype)
    ensures Text(Null, d) == Text(Str("nan"), Object)
    ensures Text(Na, d) != Text(Null, e)
  {
  }

  /** A number renders starting with a digit or a minus sign. */
  lemma NumberTextStart(n: int, d: Dtype)
    ensures |Text(Num(n), d)| >= 1
    ensures Text(Num(n), d)[0] == '-' || '0' <= Text(Num(n), d)[0] <= '9'
  {
    var t := IntText(n);
    assert Text(Num(n), d)[0] == t[0];
  }

  /** Only the marker itself or the string "<NA>" renders as the marker. */
  lemma OnlyMarkerRendersAsMarker(c: Cell, d: Dtype)
    requires Text(c, d) == NaText
    ensures c == Na || c == Str(NaText)
  {
    if c.Num? {
      NumberTextStart(c.n, d);
    }
  }

  predicate IsNegative(c: Cell) {
    c.Num? && c.n < 0
  }
}
