/** Small value types shared by the whole model: optional values, results that
    carry the JavaScript exception a step would throw, and sequence helpers. */
module Values {

  datatype Option<+T> = None | Some(value: T)

  /** The exceptions the engine can end in. `UnknownCriterion` is the error
      thrown for an unregistered criterion name; `TypeError` and
      `ReferenceError` are the runtime errors the source raises on undefined
      values or names; `NoTermination` stands for a loop of the source that
      re-requests the same page forever; `OutOfFuel` is the model's bound on
      the unbounded rename-retry loop. */
  datatype Failure =
    | UnknownCriterion(name: string)
    | TypeError
    | ReferenceError
    | NoTermination
    | OutOfFuel

  datatype Result<+T> = Ok(value: T) | Err(failure: Failure)

  /** JavaScript's `a > b` on two possibly-undefined dates: false as soon as
      either side is undefined (the comparison is with NaN). */
  predicate GtOpt(a: Option<int>, b: Option<int>)
  {
    a.Some? && b.Some? && a.value > b.value
  }

  /** JavaScript's `a <= b` on two possibly-undefined dates. */
  predicate LeOpt(a: Option<int>, b: Option<int>)
  {
    a.Some? && b.Some? && a.value <= b.value
  }

  /** `s.includes(sub)` for strings. */
  predicate Contains(s: string, sub: string)
  {
    exists i | 0 <= i <= |s| - |sub| :: OccursAt(s, sub, i)
  }

  predicate OccursAt(s: string, sub: string, i: int)
  {
    0 <= i <= |s| - |sub| && s[i..i + |sub|] == sub
  }

  function Filter<T>(s: seq<T>, keep: T -> bool): (r: seq<T>)
    ensures |r| <= |s|
    ensures forall i | 0 <= i < |r| :: keep(r[i]) && r[i] in s
    ensures forall i | 0 <= i < |s| :: keep(s[i]) ==> s[i] in r
  {
    if s == [] then [] else (if keep(s[0]) then [s[0]] else []) + Filter(s[1..], keep)
  }

  function Min(a: int, b: int): int
  {
    if a < b then a else b
  }
}
