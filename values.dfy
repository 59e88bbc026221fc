/** Values that travel through the gateway. */
module Values {

  datatype Option<+T> = None | Some(value: T)

  /**
   * A dynamically typed value as the handlers receive it: from a JSON body, a
   * form field or a holding-register read. `Null` stands for Python's `None`
   * (a missing JSON key, a JSON null, or a failed register read).
   */
  datatype Value =
    | Null
    | Bool(b: bool)
    | Int(i: int)
    | Str(s: string)
    | Registers(words: seq<int>)
}
