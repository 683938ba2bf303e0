/** SQL values and expressions. */
module Ast {
  import opened ByteOrder

  /** Text by its UTF-8 bytes, whose order is the order of Rust strings. */
  type Text = Bytes

  datatype Value =
    | Null
    | Boolean(b: bool)
    | Integer(i: i64)
    | Float(f: real)
    | String(s: Text)

  datatype Expression =
    | Field(name: Text)
    | Consts(value: Value)
    | Operation(op: Operation)
    | Function(name: Text, arg: Text)

  datatype Operation =
    | Equal(l: Expression, r: Expression)
    | GreaterThan(l: Expression, r: Expression)
    | LessThan(l: Expression, r: Expression)

  datatype Result<+T> = Ok(value: T) | Err
}
