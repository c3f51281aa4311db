/** The JavaScript values the plugin inspects: document field values and the
    raw `fields` option. Only what the plugin distinguishes is kept: which
    values are falsy under JavaScript's `!!` coercion. */
module JsValues {

  /** A JavaScript value as far as the plugin can tell them apart.
      `Obj` stands for every object, array, date or function, all truthy.
      Numbers are modelled as integers (see README, Left out). */
  datatype Value =
    | Undefined
    | Null
    | Bool(b: bool)
    | Num(n: int)
    | Str(s: string)
    | Obj

  /** JavaScript truthiness (`!!v`): undefined, null, false, 0 and "" are falsy. */
  predicate Truthy(v: Value)
    ensures !Truthy(v) <==> v in {Undefined, Null, Bool(false), Num(0), Str("")}
  {
    match v
    case Undefined => false
    case Null => false
    case Bool(b) => b
    case Num(n) => n != 0
    case Str(s) => s != ""
    case Obj => true
  }

  datatype Option<+T> = None | Some(value: T)
}
