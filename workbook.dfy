/** Worksheet cells as openpyxl reads them with `values_only=True`, and the
    bits of Python that the row loops apply to them. */
module Workbook {
  import opened Wrappers
  import opened Text

  /** A cell: text, a whole number, or empty (None). */
  datatype Cell = Text(s: string) | Number(n: int) | Blank

  /** `isinstance(cell, str)`. */
  predicate IsStr(cell: Cell) { cell.Text? }

  /** Python's `bool` as an `int` (True is 1, False is 0). */
  function BoolAsInt(b: bool): int { if b then 1 else 0 }

  /** Python's bitwise `~` on an integer: `~n == -n - 1`. */
  function Invert(n: int): (r: int)
    ensures r + n == -1
  {
    -n - 1
  }

  /** The truth value of an integer in a condition. */
  predicate Truthy(n: int) { n != 0 }

  /** `~b` for a bool is -2 or -1, never 0: it is true whatever b is. */
  lemma InvertBoolTruthy(b: bool)
    ensures Invert(BoolAsInt(b)) == (if b then -2 else -1)
    ensures Truthy(Invert(BoolAsInt(b)))
  {
  }

  /** Python's `str` of an integer, as the database stores a number bound
      to a text column. */
  function IntToString(n: int): (s: string)
    ensures |s| >= 1 && (s[0] == '-' <==> n < 0)
    ensures var digits := if n < 0 then s[1..] else s;
      AllDigits(digits) && ParseDigits(digits) == if n < 0 then -n else n
  {
    var magnitude := if n < 0 then -n else n;
    ParseNatToString(magnitude);
    if n < 0 then
      assert ("-" + NatToString(magnitude))[1..] == NatToString(magnitude);
      "-" + NatToString(magnitude)
    else NatToString(magnitude)
  }

  /** A worksheet cell bound as a text parameter: empty cells are NULL. */
  function SqlText(c: Cell): (r: Option<string>)
    ensures r.None? <==> c.Blank?
    ensures c.Text? ==> r == Some(c.s)
  {
    match c
    case Text(s) => Some(s)
    case Number(n) => Some(IntToString(n))
    case Blank => None
  }
}
