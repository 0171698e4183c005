/** Table cells, their canonical string form, and tables. */
module Cells {

  /** A scalar cell; `Null` is pandas' NaN/None. */
  datatype Cell = Null | Int(i: int) | Text(s: string) | Bool(b: bool)

  function DigitChar(d: nat): (c: char)
    requires d < 10
    ensures '0' <= c <= '9'
  {
    "0123456789"[d]
  }

  /** Decimal digits of a natural number, most significant first. */
  function Digits(n: nat): (r: string)
    ensures |r| >= 1
    ensures forall k :: 0 <= k < |r| ==> '0' <= r[k] <= '9'
    decreases n
  {
    if n < 10 then [DigitChar(n)] else Digits(n / 10) + [DigitChar(n % 10)]
  }

  /** Python's str() of an int. */
  function IntStr(i: int): (r: string)
    ensures |r| >= 1
    ensures forall k :: 0 <= k < |r| ==> r[k] == '-' || '0' <= r[k] <= '9'
  {
    if i < 0 then "-" + Digits(-i) else Digits(i)
  }

  /** `fillna('').astype(str)` of one cell: null reads as the empty string. */
  function Str(c: Cell): string {
    match c
    case Null => ""
    case Int(i) => IntStr(i)
    case Text(s) => s
    case Bool(b) => if b then "True" else "False"
  }

  /** The cell of column `c` in a row; a cell the row lacks reads as null. */
  function Lookup<C>(row: map<C, Cell>, c: C): Cell {
    if c in row then row[c] else Null
  }

  /** A data frame: ordered column names and rows keyed by column. */
  datatype Table<C> = Table(columns: seq<C>, rows: seq<map<C, Cell>>)

  /** Only a null cell and an empty text cell stringify to "": the comparison cannot tell them apart. */
  lemma StrEmptyIffBlank(c: Cell)
    ensures Str(c) == "" <==> c == Null || c == Text("")
  {
  }

  /** String comparison conflates types: every integer reads the same as the text of its
      digits, so the integer 5 and the text "5" compare equal. */
  lemma StrConflatesIntAndText()
    ensures forall i :: Str(Int(i)) == Str(Text(IntStr(i)))
    ensures Str(Int(5)) == Str(Text("5"))
  {
  }
}
