/** Small vocabulary shared by the scheduler, the OCR evaluator and the PDF
    writer: optional values, results with an error side, and "first maximum"
    selection, which is how both the scheduler's heap and the OCR job's
    stable descending sort pick a winner. */
module Basics {

  datatype Option<T> = None | Some(value: T)

  /** A Python call that either returns a value or raises an exception. */
  datatype Result<T, E> = Ok(value: T) | Err(error: E)

  /** `k` holds a maximal key and every earlier key is strictly smaller. */
  ghost predicate IsFirstMax(keys: seq<int>, k: int)
  {
    && 0 <= k < |keys|
    && (forall i :: 0 <= i < |keys| ==> keys[i] <= keys[k])
    && (forall i :: 0 <= i < k ==> keys[i] < keys[k])
  }

  /** Index of the earliest maximal key. */
  function FirstMax(keys: seq<int>): (k: nat)
    requires |keys| > 0
    ensures IsFirstMax(keys, k)
  {
    if |keys| == 1 then 0
    else
      var k := FirstMax(keys[..|keys| - 1]);
      if keys[|keys| - 1] > keys[k] then |keys| - 1 else k
  }

  /** The first maximum is unique: any index with both properties is the one
      `FirstMax` returns. */
  lemma FirstMaxUnique(keys: seq<int>, k: int)
    requires IsFirstMax(keys, k)
    ensures k == FirstMax(keys)
  {
    var m := FirstMax(keys);
    if k != m {
      assert false;
    }
  }
}
