/** The part of a parsed Terraform module that the generator reads: what
    the Terraform config loader hands back for one directory. */
module Terraform {

  /** A cty value, as far as the generator inspects it: strings, numbers
      (as integers), booleans, tuples of values, and every other type. */
  datatype Value =
    | Str(s: string)
    | Num(n: int)
    | Bool(b: bool)
    | Tuple(elems: seq<Value>)
    | Other

  predicate IsPrimitive(v: Value) {
    v.Str? || v.Num? || v.Bool?
  }

  /** The outcome of evaluating a local's expression with no evaluation
      context: diagnostics with errors, or an object of named values. */
  datatype LocalValue = EvalError | Object(fields: map<string, Value>)

  /** A parsed module: its directory, its locals, the source address of each
      module call (in declaration order) and whether it declares a backend. */
  datatype Module = Module(
    sourceDir: string,
    locals: map<string, LocalValue>,
    moduleCalls: seq<string>,
    hasBackend: bool)
}
