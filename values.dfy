/**
 * JavaScript values as the statistics functions see them, the one error kind
 * they raise, and the shape check they all run before computing anything.
 */
module Values {

  /** A JavaScript value, reduced to what the shape check distinguishes:
      a number, a string, an array, or anything else (object, boolean, null,
      undefined, ...). Numbers are exact reals. */
  datatype Value =
    | Num(n: real)
    | Str(text: string)
    | Arr(elems: seq<Value>)
    | Other

  /** `ErrorInvalidArgument`: the error kind is the constructor tag, so callers
      can tell it apart from any other failure without reading the message. */
  datatype Error = InvalidArgument(message: string)

  /** A call either returns a value or throws an `Error`. */
  datatype Result<T> = Success(value: T) | Failure(error: Error)

  /** Message thrown by `sum` and `median` when the shape check fails. */
  const ArrayOfNumbersMessage: string := "Input must be an array of numbers."

  /** Message thrown by `average` when the shape check fails. */
  const NonEmptyArrayOfNumbersMessage: string := "Input must be a non-empty array of numbers."

  /** Message thrown by `average` and `median` on an empty array of numbers. */
  const EmptyArrayMessage: string := "Array cannot be empty."

  /** `elems.every(x => typeof x === "number")`: scans left to right and stops
      at the first element that is not a number. */
  predicate AllNumbers(elems: seq<Value>): (r: bool)
    ensures r <==> forall i :: 0 <= i < |elems| ==> elems[i].Num?
  {
    elems == [] || (elems[0].Num? && AllNumbers(elems[1..]))
  }

  /** `Array.isArray(v) && v.every(x => typeof x === "number")`: holds exactly
      for an array every element of which is a number. */
  predicate IsNumberArray(v: Value): (r: bool)
    ensures r <==> v.Arr? && forall i :: 0 <= i < |v.elems| ==> v.elems[i].Num?
  {
    v.Arr? && AllNumbers(v.elems)
  }

  /** The numbers held by an array whose elements are all numbers, in order. */
  function NumbersOf(elems: seq<Value>): (r: seq<real>)
    requires forall i :: 0 <= i < |elems| ==> elems[i].Num?
    ensures |r| == |elems|
    ensures forall i :: 0 <= i < |elems| ==> elems[i] == Num(r[i])
  {
    if elems == [] then [] else [elems[0].n] + NumbersOf(elems[1..])
  }

  /** The array of numbers holding `s`, element by element; the shape check
      reads `s` back from it. */
  function FromNumbers(s: seq<real>): (v: Value)
    ensures v.Arr? && |v.elems| == |s|
    ensures forall i :: 0 <= i < |s| ==> v.elems[i] == Num(s[i])
    ensures IsNumberArray(v) && NumbersOf(v.elems) == s
  {
    var v := Arr(seq(|s|, i requires 0 <= i < |s| => Num(s[i])));
    assert NumbersOf(v.elems) == s;
    v
  }

  /** The shape check shared by `sum`, `average` and `median`: it passes, with
      the array's numbers, exactly when the input is an array of numbers, and
      otherwise throws `InvalidArgument` with the caller's message. */
  function CheckNumbers(v: Value, message: string): (r: Result<seq<real>>)
    ensures r.Success? <==> IsNumberArray(v)
    ensures r.Failure? ==> r.error == InvalidArgument(message)
    ensures r.Success? ==> |r.value| == |v.elems|
    ensures r.Success? ==> forall i :: 0 <= i < |r.value| ==> v.elems[i] == Num(r.value[i])
  {
    if IsNumberArray(v) then Success(NumbersOf(v.elems)) else Failure(InvalidArgument(message))
  }

  /** Every accepted input is the array of the numbers the check returns. */
  lemma {:induction false} CheckedIsFromNumbers(v: Value, message: string)
    requires CheckNumbers(v, message).Success?
    ensures v == FromNumbers(CheckNumbers(v, message).value)
  {
    var s := CheckNumbers(v, message).value;
    assert v.elems == FromNumbers(s).elems;
  }

  /** A value that is not an array, or an array holding anything other than a
      number, is rejected whatever else it holds. */
  lemma {:induction false} CheckRejects(v: Value, message: string, i: int)
    requires !v.Arr? || (0 <= i < |v.elems| && !v.elems[i].Num?)
    ensures CheckNumbers(v, message) == Failure(InvalidArgument(message))
  {
  }
}
