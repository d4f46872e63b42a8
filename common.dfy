/** Values shared by every module: optional results, column values and
    attribute dictionaries. */
module Common {

  /** `Optional[...]`: a lookup that may find nothing. */
  datatype Option<T> = None | Some(value: T) {
    function GetOr(default: T): T {
      if Some? then value else default
    }
  }

  /** A column value as the ORM hands it back: text, integer, boolean or NULL. */
  datatype Value = Str(s: string) | Int(i: int) | Bool(b: bool) | Null

  /** An attribute dictionary: a record's `__dict__`, or the dictionary of
      update data the repository is given. */
  type Row = map<string, Value>

  function Min(a: int, b: int): int {
    if a <= b then a else b
  }
}
