/** Basic types shared by every module of the model: bytes, optional values and the
    Python value shapes (`str` or `None`) that flow between the database rows and the
    cipher. */
module Base {

  /** A byte of a Python `bytes` object. */
  type Byte = b: int | 0 <= b < 256

  /** A Python `bytes` object. */
  type Bytes = seq<Byte>

  datatype Option<+T> = None | Some(value: T) {
    function GetOr(default: T): T {
      match this
      case Some(v) => v
      case None => default
    }
  }

  /** A database column or dictionary value as Python sees it: a string (dates already
      rendered the way `str(date)` renders them) or `None` (SQL NULL). */
  datatype Value = Str(s: string) | NoneValue

  /** Python's `str(v)`: `None` renders as the four characters "None". */
  function PyStr(v: Value): string {
    match v
    case Str(s) => s
    case NoneValue => "None"
  }

  /** Python's `v or ''` on a nullable text column. */
  function OrEmpty(v: Option<string>): string {
    match v
    case Some(s) => s
    case None => ""
  }

  /** Python's `str(v)` on a nullable text column fetched from the database. */
  function ColumnStr(v: Option<string>): string {
    match v
    case Some(s) => s
    case None => "None"
  }

  /** The column as a Python value. */
  function ColumnValue(v: Option<string>): Value {
    match v
    case Some(s) => Str(s)
    case None => NoneValue
  }

  /** Python truthiness of an optional `bytes` value: `None` and `b''` are false. */
  predicate Truthy(b: Option<Bytes>) {
    b.Some? && |b.value| > 0
  }
}
