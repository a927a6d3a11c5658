/**
 * Shapes shared by both generations of the extraction engine (src/types.ts and the
 * return types of the two `getResult` functions).
 */
module Types {
  import opened Wrappers

  /** The `{ result, source }` object a `getResult` returns when a candidate is chosen. */
  datatype Hit = Hit(result: string, source: string)

  /**
   * `Evaluation` of src/types.ts. The editor `Range` is abstracted into the index of the
   * selection the evaluation was computed for; `result` may be `null` in the type.
   */
  datatype Evaluation = Evaluation(result: Option<string>, source: string, selection: nat)

  /**
   * mathjs `evaluate(expr).toString()`: a deterministic partial function on strings,
   * `None` when `evaluate` throws.
   */
  type Evaluator = string -> Option<string>

  /** JavaScript truthiness of a `string | undefined`: `undefined` and `""` are falsy. */
  predicate Truthy(r: Option<string>) {
    r.Some? && r.value != ""
  }
}
