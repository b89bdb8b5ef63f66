/** Values shared by all the scripts: optional values, spreadsheet cells as pandas and
    openpyxl hand them over, and the outcome of a PDF download. */
module Common {

  datatype Option<+T> = None | Some(value: T) {
    function GetOr(default: T): T {
      match this
      case Some(v) => v
      case None => default
    }
  }

  /** A cell value read from a worksheet: empty (None, or NaN in pandas), text or a number. */
  datatype Cell = Null | Text(s: string) | Number(n: int)

  /** Python truthiness of a cell value (`if value:`). */
  predicate Truthy(c: Cell) {
    match c
    case Null => false
    case Text(s) => s != ""
    case Number(n) => n != 0
  }

  /** A cell of a result column: either the value it had when the sheet was read, or the
      JSON text of a result written by the script (a non-empty string, so truthy and not null). */
  datatype Slot<T> = Kept(cell: Cell) | Wrote(result: T)

  /** pandas `notna` on a result-column cell. */
  predicate SlotNotNull<T>(s: Slot<T>) {
    s.Wrote? || !s.cell.Null?
  }

  /** Python truthiness of a result-column cell. */
  predicate SlotTruthy<T>(s: Slot<T>) {
    s.Wrote? || Truthy(s.cell)
  }

  predicate IsHexDigit(c: char) {
    ('0' <= c <= '9') || ('a' <= c <= 'f')
  }

  /** A `hexdigest()` value: lower-case hexadecimal digits only. */
  type HexDigest = s: string | forall i :: 0 <= i < |s| ==> IsHexDigit(s[i])
}
