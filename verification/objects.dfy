/** The slice of the script runtime's value model that the bridge touches:
    script values, their type names, the numeric conversion, and the errors a
    native function can return. The runtime itself is not part of this model;
    the type names and the conversion below follow the runtime's conventions. */
module Objects {

  import opened Wrappers
  import Decimal

  /** What a native function value stands for: the `move` method bound to one
      sprite of the game, named by the sprite's index. */
  datatype Native = SpriteMove(sprite: nat)

  /** A script value. `Other` stands for every kind of value the conversion
      never accepts (arrays, booleans, ...), keeping only its type name. The runtime
      gives such values names of their own, so an `Other` is only meaningful
      with a name none of the other cases reports; see `DistinctTypeName`. */
  datatype Object =
    | Int(intValue: int)
    | Float(floatValue: real)
    | Str(text: string)
    | Undefined
    | Map(entries: map<string, Object>)
    | UserFunction(name: string, native: Native)
    | Other(typeName: string)
  {
    /** The type name the runtime reports for the value. */
    function TypeName(): string
    {
      match this
      case Int(_) => "int"
      case Float(_) => "float"
      case Str(_) => "string"
      case Undefined => "undefined"
      case Map(_) => "map"
      case UserFunction(_, _) => "user-function"
      case Other(t) => t
    }
  }

  /** The value's type name is not one the runtime reserves for another kind
      of value. */
  predicate DistinctTypeName(o: Object)
  {
    o.Other? ==> o.typeName !in {"int", "float", "string", "undefined", "map", "user-function"}
  }

  /** The values the runtime can convert to a host floating-point number:
      floats, integers widened to floats, and strings holding a decimal number. */
  predicate Numeric(o: Object)
  {
    o.Int? || o.Float? || (o.Str? && Decimal.ParseFloat(o.text).Some?)
  }

  /** The number a numeric value denotes. */
  function AsReal(o: Object): real
    requires Numeric(o)
  {
    match o
    case Int(i) => i as real
    case Float(f) => f
    case Str(t) => Decimal.ParseFloat(t).value
  }

  /** The runtime's conversion to float64: the number and `true` for a numeric
      value, and Go's zero value with `false` for anything else, a string
      that does not parse included. */
  function ToFloat64(o: Object): (real, bool)
  {
    if Numeric(o) then (AsReal(o), true) else (0.0, false)
  }

  /** The errors a native function returns to the script. */
  datatype CallError =
    | WrongNumArguments
    | InvalidArgumentType(name: string, expected: string, found: string)

  /** What a native function returns: a script value, or an error. */
  type CallResult = Result<Object, CallError>
}
