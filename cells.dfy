/**
 * Spreadsheet cells as the JavaScript code sees them after
 * `XLSX.utils.sheet_to_json(sheet, { header: 1 })`: each row is an array
 * whose entries are undefined, null, a string or a number.
 */
module Cells {

  /** `Empty` is JavaScript's `undefined` (a blank cell, or an index past the end of the row). */
  datatype Cell = Empty | Null | Str(s: string) | Num(n: int)

  type Row = seq<Cell>

  /** JavaScript truthiness: `undefined`, `null`, `''` and `0` are falsy, every other value is truthy. */
  predicate Truthy(c: Cell) {
    match c
    case Empty => false
    case Null => false
    case Str(s) => s != ""
    case Num(n) => n != 0
  }

  /** `a || b` on cells: `a` when it is truthy, otherwise `b`. */
  function Or(a: Cell, b: Cell): (r: Cell)
    ensures Truthy(a) ==> r == a
    ensures !Truthy(a) ==> r == b
  {
    if Truthy(a) then a else b
  }

  /** `row[k]`: `undefined` for an index outside the row, including the -1 of a failed `indexOf`. */
  function Get(row: Row, k: int): Cell {
    if 0 <= k < |row| then row[k] else Empty
  }

  /** `row.indexOf(x)`: the index of the first cell strictly equal to `x`, or -1. */
  function IndexOf(row: Row, x: Cell): (k: int)
    ensures -1 <= k < |row|
    ensures k >= 0 ==> row[k] == x && forall j :: 0 <= j < k ==> row[j] != x
    ensures k == -1 <==> x !in row
  {
    if row == [] then -1
    else if row[0] == x then 0
    else
      var k := IndexOf(row[1..], x);
      assert x in row[1..] <==> x in row;
      if k == -1 then -1 else k + 1
  }

  /** The decimal digits of `n`, most significant first, as `String(n)` writes them. */
  function NatToDecimal(n: nat): (r: string)
    ensures r != []
    ensures forall i :: 0 <= i < |r| ==> '0' <= r[i] <= '9'
  {
    var digit := ['0' + (n % 10) as char];
    if n < 10 then digit else NatToDecimal(n / 10) + digit
  }

  /**
   * The string a cell becomes when it is used as a property name of a plain
   * JavaScript object, as in `categoryMap[catName]`.
   */
  function PropertyKey(c: Cell): string {
    match c
    case Empty => "undefined"
    case Null => "null"
    case Str(s) => s
    case Num(n) => if n < 0 then "-" + NatToDecimal(-n) else NatToDecimal(n)
  }
}
