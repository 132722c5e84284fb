/**
 * The three exported statistics of index.js (`sum`, `average`, `median`) and
 * the `isEven` helper, over exact reals.
 */
module Stats {
  import opened Values
  import opened Sorting

  // ---------------------------------------------------------------------------
  // sum

  /** `nums.reduce((acc, curr) => acc + curr, 0)`: adds the numbers from left to
      right, starting from 0. */
  function SumOf(s: seq<real>): real
  {
    if s == [] then 0.0 else SumOf(s[..|s| - 1]) + s[|s| - 1]
  }

  /** The fold splits at any point: the total of a concatenation is the sum of
      the totals of its parts. */
  lemma {:induction false} SumAppend(a: seq<real>, b: seq<real>)
    ensures SumOf(a + b) == SumOf(a) + SumOf(b)
  {
    if b == [] {
      assert a + b == a;
    } else {
      assert (a + b)[..|a + b| - 1] == a + b[..|b| - 1];
      SumAppend(a, b[..|b| - 1]);
    }
  }

  /** The total of a single number is that number (0 plus it). */
  lemma {:induction false} SumSingle(x: real)
    ensures SumOf([x]) == x
  {
    assert [x][..0] == [];
  }

  /** The total does not depend on the order of the numbers. */
  lemma {:induction false} SumPermutation(s: seq<real>, t: seq<real>)
    requires multiset(s) == multiset(t)
    ensures SumOf(s) == SumOf(t)
  {
    if s == [] {
      assert |t| == |multiset(t)| == 0;
    } else {
      assert s[0] in multiset(t);
      var j :| 0 <= j < |t| && t[j] == s[0];
      MultisetRemoveAt(t, j);
      MultisetTail(s);
      SumPermutation(s[1..], t[..j] + t[j + 1..]);
      assert s == [s[0]] + s[1..];
      SumAppend([s[0]], s[1..]);
      SumSingle(s[0]);
      SumAppend(t[..j] + [t[j]], t[j + 1..]);
      SumAppend(t[..j], [t[j]]);
      SumAppend(t[..j], t[j + 1..]);
    }
  }

  /** A total of numbers that are all at least `lo` and at most `hi`. */
  lemma {:induction false} SumBetween(s: seq<real>, lo: real, hi: real)
    requires forall i :: 0 <= i < |s| ==> lo <= s[i] <= hi
    ensures |s| as real * lo <= SumOf(s) <= |s| as real * hi
  {
    if s != [] {
      SumBetween(s[..|s| - 1], lo, hi);
    }
  }

  /** `sum(nums)`: the shape check with its message, then the fold. An empty
      array is accepted and sums to 0. */
  function Sum(nums: Value): (r: Result<real>)
    ensures !IsNumberArray(nums) ==> r == Failure(InvalidArgument(ArrayOfNumbersMessage))
    ensures IsNumberArray(nums) ==> r == Success(SumOf(NumbersOf(nums.elems)))
  {
    match CheckNumbers(nums, ArrayOfNumbersMessage)
    case Failure(e) => Failure(e)
    case Success(s) => Success(SumOf(s))
  }

  // ---------------------------------------------------------------------------
  // average

  /** `average(nums)`: the shape check first (with its own message), the
      emptiness check second, then `sum(nums) / nums.length`. */
  function Average(nums: Value): (r: Result<real>)
    ensures !IsNumberArray(nums) ==> r == Failure(InvalidArgument(NonEmptyArrayOfNumbersMessage))
    ensures IsNumberArray(nums) && nums.elems == [] ==> r == Failure(InvalidArgument(EmptyArrayMessage))
    ensures IsNumberArray(nums) && nums.elems != [] ==>
              r == Success(SumOf(NumbersOf(nums.elems)) / |nums.elems| as real)
  {
    match CheckNumbers(nums, NonEmptyArrayOfNumbersMessage)
    case Failure(e) => Failure(e)
    case Success(s) =>
      if |s| == 0 then Failure(InvalidArgument(EmptyArrayMessage))
      else Success(Sum(nums).value / |s| as real)
  }

  /** The average of a non-empty array of numbers lies between its least and
      its greatest element. */
  lemma AverageWithinRange(s: seq<real>)
    requires s != []
    ensures Average(FromNumbers(s)).Success?
    ensures Min(s) <= Average(FromNumbers(s)).value <= Max(s)
  {
    MeanBetween(s, Min(s), Max(s));
    AverageOfNumbers(s);
  }

  /** The total of a non-empty list of numbers, each between `lo` and `hi`,
      divided by its length, is between `lo` and `hi`. */
  lemma MeanBetween(s: seq<real>, lo: real, hi: real)
    requires s != []
    requires forall i :: 0 <= i < |s| ==> lo <= s[i] <= hi
    ensures lo <= SumOf(s) / |s| as real <= hi
  {
    SumBetween(s, lo, hi);
    DivBetween(SumOf(s), |s| as real, lo, hi);
  }

  /** On the array holding a non-empty list of numbers, `average` returns its
      total divided by its length. */
  lemma AverageOfNumbers(s: seq<real>)
    requires s != []
    ensures Average(FromNumbers(s)) == Success(SumOf(s) / |s| as real)
  {
  }

  /** A quotient by a positive divisor of a total between `n * lo` and `n * hi`. */
  lemma DivBetween(total: real, n: real, lo: real, hi: real)
    requires n > 0.0 && n * lo <= total <= n * hi
    ensures lo <= total / n <= hi
  {
  }

  // ---------------------------------------------------------------------------
  // median

  /** `isEven(n)`: `n % 2 === 0`. When it holds, `n / 2 - 1` and `n / 2` are
      the two middle indices; otherwise `n / 2` is the single middle one. */
  function IsEven(n: int): (r: bool)
    ensures r ==> n / 2 + n / 2 == n
    ensures !r ==> n / 2 + n / 2 + 1 == n
  {
    n % 2 == 0
  }

  /** The middle of an already sorted, non-empty array, as `median` reads it
      off: with `midIndex = floor(n / 2)`, the mean of the elements at
      `midIndex - 1` and `midIndex` when `isEven(n)`, else the element at
      `midIndex`. */
  function Middle(sorted: seq<real>): (m: real)
    requires sorted != []
    ensures |sorted| % 2 == 1 ==> m == sorted[|sorted| / 2]
    ensures |sorted| % 2 == 0 ==> m == (sorted[|sorted| / 2 - 1] + sorted[|sorted| / 2]) / 2.0
  {
    var midIndex := |sorted| / 2;
    if IsEven(|sorted|) then (sorted[midIndex - 1] + sorted[midIndex]) / 2.0 else sorted[midIndex]
  }

  /** The median of a non-empty sequence of numbers: the middle of its
      ascending copy. */
  function MedianOf(s: seq<real>): real
    requires s != []
  {
    SortLength(s);
    Middle(Sort(s))
  }

  /** `median(nums)` as a value: the shape check, the emptiness check, then
      the median of the numbers. */
  function MedianResult(nums: Value): (r: Result<real>)
    ensures !IsNumberArray(nums) ==> r == Failure(InvalidArgument(ArrayOfNumbersMessage))
    ensures IsNumberArray(nums) && nums.elems == [] ==> r == Failure(InvalidArgument(EmptyArrayMessage))
    ensures IsNumberArray(nums) && nums.elems != [] ==> r == Success(MedianOf(NumbersOf(nums.elems)))
  {
    match CheckNumbers(nums, ArrayOfNumbersMessage)
    case Failure(e) => Failure(e)
    case Success(s) =>
      if |s| == 0 then Failure(InvalidArgument(EmptyArrayMessage))
      else Success(MedianOf(s))
  }

  /** Any ascending permutation `u` of the input gives the median by index:
      `u[n/2]` for an odd length, `(u[n/2 - 1] + u[n/2]) / 2` for an even one. */
  lemma MedianFromSorted(s: seq<real>, u: seq<real>)
    requires s != []
    requires SortedAsc(u) && multiset(u) == multiset(s)
    ensures |u| == |s|
    ensures MedianOf(s) == Middle(u)
    ensures |u| % 2 == 1 ==> MedianOf(s) == u[|u| / 2]
    ensures |u| % 2 == 0 ==> MedianOf(s) == (u[|u| / 2 - 1] + u[|u| / 2]) / 2.0
  {
    SameLength(s, u);
    SortedUnique(Sort(s), u);
  }

  /** `[...nums].sort((a, b) => a - b)`: copies the numbers into a fresh array
      and sorts the copy in place, which leaves it as the reference sort of
      the input. */
  method SortedCopy(s: seq<real>) returns (sorted: array<real>)
    ensures fresh(sorted)
    ensures sorted[..] == Sort(s)
  {
    sorted := new real[|s|](i requires 0 <= i < |s| => s[i]);
    assert sorted[..] == s;
    SortInPlace(sorted);
    SortedUnique(sorted[..], Sort(s));
  }

  /** `median(nums)`: checks the input, sorts a fresh copy of it and reads off
      the middle. */
  method Median(nums: Value) returns (r: Result<real>)
    ensures r == MedianResult(nums)
  {
    var checked := CheckNumbers(nums, ArrayOfNumbersMessage);
    if checked.Failure? {
      return Failure(checked.error);
    }
    var s := checked.value;
    assert s == NumbersOf(nums.elems);
    if |s| == 0 {
      return Failure(InvalidArgument(EmptyArrayMessage));
    }
    var sorted := SortedCopy(s);
    ghost var u := sorted[..];
    SortLength(s);
    assert MedianResult(nums) == Success(Middle(u));
    var midIndex := sorted.Length / 2;
    if IsEven(sorted.Length) {
      r := Success((sorted[midIndex - 1] + sorted[midIndex]) / 2.0);
    } else {
      r := Success(sorted[midIndex]);
    }
  }

  /** The middle of a sorted array lies between its first and last elements. */
  lemma MiddleWithinRange(u: seq<real>)
    requires u != [] && SortedAsc(u)
    ensures u[0] <= Middle(u) <= u[|u| - 1]
  {
    var h := |u| / 2;
    assert u[0] <= u[h] <= u[|u| - 1];
    if IsEven(|u|) {
      assert u[0] <= u[h - 1] <= u[|u| - 1];
    }
  }

  /** The median lies between the least and the greatest element. */
  lemma MedianWithinRange(s: seq<real>)
    requires s != []
    ensures Min(s) <= MedianOf(s) <= Max(s)
  {
    SortEnds(s);
    MedianFromSorted(s, Sort(s));
    MiddleWithinRange(Sort(s));
  }

  /** The median does not depend on the order of the numbers. */
  lemma MedianPermutation(s: seq<real>, t: seq<real>)
    requires s != [] && multiset(s) == multiset(t)
    ensures t != []
    ensures MedianOf(s) == MedianOf(t)
  {
    SameLength(s, t);
    SortPermutation(s, t);
  }

  /** In a sorted array, at least half of the elements are at most its middle
      and at least half are at least it. */
  lemma MiddleSplitsInHalves(u: seq<real>)
    requires u != [] && SortedAsc(u)
    ensures 2 * CountAtMost(u, Middle(u)) >= |u|
    ensures 2 * CountAtLeast(u, Middle(u)) >= |u|
  {
    var n, h, m := |u|, |u| / 2, Middle(u);
    if IsEven(n) {
      assert u[h - 1] <= m <= u[h];
      CountAtMostPrefix(u, h, m);
      CountAtLeastSuffix(u, h, m);
    } else {
      assert m == u[h];
      CountAtMostPrefix(u, h + 1, m);
      CountAtLeastSuffix(u, h, m);
    }
  }

  /** At least half of the numbers are at most the median, and at least half
      are at least the median. */
  lemma MedianSplitsInHalves(s: seq<real>)
    requires s != []
    ensures 2 * CountAtMost(s, MedianOf(s)) >= |s|
    ensures 2 * CountAtLeast(s, MedianOf(s)) >= |s|
  {
    var u := Sort(s);
    MedianFromSorted(s, u);
    MiddleSplitsInHalves(u);
    CountPermutation(s, u, Middle(u));
  }

  // ---------------------------------------------------------------------------
  // Properties across the three operations

  /** Each statistic of an array of numbers depends only on which numbers it
      holds (with their multiplicities), not on their order. */
  lemma ResultsIgnoreOrder(s: seq<real>, t: seq<real>)
    requires multiset(s) == multiset(t)
    ensures Sum(FromNumbers(s)) == Sum(FromNumbers(t))
    ensures Average(FromNumbers(s)) == Average(FromNumbers(t))
    ensures MedianResult(FromNumbers(s)) == MedianResult(FromNumbers(t))
  {
    assert |t| == |multiset(t)| == |multiset(s)| == |s|;
    SumPermutation(s, t);
    if s != [] {
      MedianPermutation(s, t);
    }
  }

  /** `average` and `median` report "Array cannot be empty." exactly for the
      empty array: the shape check runs first, so nothing else gets that message. */
  lemma EmptyMessageOnlyForEmptyArray(nums: Value)
    ensures Average(nums) == Failure(InvalidArgument(EmptyArrayMessage)) <==> nums == Arr([])
    ensures MedianResult(nums) == Failure(InvalidArgument(EmptyArrayMessage)) <==> nums == Arr([])
  {
    assert |EmptyArrayMessage| != |ArrayOfNumbersMessage|;
    assert |EmptyArrayMessage| != |NonEmptyArrayOfNumbersMessage|;
  }

  /** `sum([])` is 0: the empty array is not an error for `sum`. */
  lemma SumOfEmptyArray()
    ensures Sum(Arr([])) == Success(0.0)
  {
  }

  /** `average([])` fails with "Array cannot be empty.". */
  lemma AverageOfEmptyArray()
    ensures Average(Arr([])) == Failure(InvalidArgument(EmptyArrayMessage))
  {
  }

  /** `median([])` fails with "Array cannot be empty.". */
  lemma MedianOfEmptyArray()
    ensures MedianResult(Arr([])) == Failure(InvalidArgument(EmptyArrayMessage))
  {
  }

  /** `sum("not an array")` fails with the shape message of `sum`. */
  lemma SumOfString()
    ensures Sum(Str("not an array")) == Failure(InvalidArgument(ArrayOfNumbersMessage))
  {
  }

  /** `average("not an array")` fails with the shape message of `average`. */
  lemma AverageOfString()
    ensures Average(Str("not an array")) == Failure(InvalidArgument(NonEmptyArrayOfNumbersMessage))
  {
  }

  /** `median("not an array")` fails with the shape message of `median`. */
  lemma MedianOfString()
    ensures MedianResult(Str("not an array")) == Failure(InvalidArgument(ArrayOfNumbersMessage))
  {
  }

  /** sum([1, 2, 4, 8, 16]) is 31 and average([1, 2, 4, 8, 16]) is 6.2. */
  lemma SumAndAverageExample()
    ensures Sum(FromNumbers([1.0, 2.0, 4.0, 8.0, 16.0])) == Success(31.0)
    ensures Average(FromNumbers([1.0, 2.0, 4.0, 8.0, 16.0])) == Success(6.2)
  {
    var s := [1.0, 2.0, 4.0, 8.0, 16.0];
    SumSingle(1.0);
    assert [1.0, 2.0][..1] == [1.0];
    assert SumOf([1.0, 2.0]) == 3.0;
    assert [1.0, 2.0, 4.0][..2] == [1.0, 2.0];
    assert SumOf([1.0, 2.0, 4.0]) == 7.0;
    assert [1.0, 2.0, 4.0, 8.0][..3] == [1.0, 2.0, 4.0];
    assert SumOf([1.0, 2.0, 4.0, 8.0]) == 15.0;
    assert s[..4] == [1.0, 2.0, 4.0, 8.0];
  }

  /** median([1, 3, 5]) is 3. */
  lemma MedianOddExample()
    ensures MedianResult(FromNumbers([1.0, 3.0, 5.0])) == Success(3.0)
  {
    MedianFromSorted([1.0, 3.0, 5.0], [1.0, 3.0, 5.0]);
  }

  /** median([1, 2, 3, 4]) is 2.5. */
  lemma MedianEvenExample()
    ensures MedianResult(FromNumbers([1.0, 2.0, 3.0, 4.0])) == Success(2.5)
  {
    MedianFromSorted([1.0, 2.0, 3.0, 4.0], [1.0, 2.0, 3.0, 4.0]);
  }
}
