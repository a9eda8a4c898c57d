/** JavaScript values as far as the site build relies on them: optional values
    (`undefined`/`null` versus present), truthiness, and the string coercion Node
    applies to anything assigned to `process.env`. */
module Js {

  /** A value that may be absent (`undefined` or `null`), as consumed by `??` and `||`. */
  datatype Option<+T> = None | Some(value: T) {
    /** `x ?? default`: the value when present, otherwise the default. */
    function GetOr(default: T): T {
      match this
      case Some(v) => v
      case None => default
    }
  }

  /** A call that returns normally with a value or ends by throwing an error. */
  datatype Result<+T, +E> = Ok(value: T) | Err(error: E)

  /** The JavaScript values that front matter and computed data carry here.
      `Obj` stands for any object (a `Date`, an array, a function): always truthy. */
  datatype Value = Undefined | Null | Bool(b: bool) | Num(n: int) | Str(s: string) | Obj

  /** JavaScript truthiness: `undefined`, `null`, `false`, `0` and `""` are falsy. */
  function Truthy(v: Value): (r: bool)
    ensures r <==> v !in [Undefined, Null, Bool(false), Num(0), Str("")]
  {
    match v
    case Undefined => false
    case Null => false
    case Bool(b) => b
    case Num(n) => n != 0
    case Str(s) => s != ""
    case Obj => true
  }

  /** Truthiness of a string that may be missing (an environment variable, a slug, a caption). */
  predicate TruthyStr(o: Option<string>) {
    o.Some? && o.value != ""
  }

  /** A missing string is falsy like `undefined`; a present one is as truthy as its string value. */
  lemma TruthyStrIsTruthy(o: Option<string>)
    ensures TruthyStr(o) <==> Truthy(if o.None? then Undefined else Str(o.value))
  {
  }

  /** What `process.env.NAME = b` stores: Node turns every assigned value into a string,
      so `false` is stored as the non-empty string "false". */
  function EnvAssignBool(b: bool): (r: Option<string>)
    ensures r.Some? && r.value == (if b then "true" else "false")
    ensures TruthyStr(r)
  {
    Some(if b then "true" else "false")
  }
}
