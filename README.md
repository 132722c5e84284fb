# fc-stats in Dafny

A verified model of `index.js` from fc-stats. This is a small JavaScript statistics library that exports three functions:

- `sum` adds the numbers of an array.
- `average` divides that total by the length.
- `median` sorts a copy of the array and reads off the middle element, or the mean of the two middle elements.

All three run the same shape check first. The input must be an array, and every element it holds must be a number (holes in a sparse array are skipped by that check and are not modelled; see "Left out"). Otherwise they throw `ErrorInvalidArgument` with a message that depends on the call site. `average` and `median` also reject an empty array, but only after the shape check has passed.

The project has three modules:

- `Values` (values.dfy) holds:
  - JavaScript values, as `Num | Str | Arr | Other`;
  - the `InvalidArgument(message)` error, as a `Result` datatype instead of a thrown exception;
  - the three messages;
  - the shared shape check.
- `Sorting` (sorting.dfy) holds:
  - ascending order and a reference sort;
  - the fact that a sorted permutation is unique;
  - the in-place insertion sort that `median` runs on its fresh copy;
  - the order statistics that the properties are stated with.
- `Stats` (stats.dfy) holds:
  - `sum` as a left fold from 0;
  - `average`;
  - `median` as a method that copies the input into a new array, sorts it in place and indexes into it, plus `MedianResult`, the function that specifies it;
  - `isEven`;
  - the lemmas relating these.

Numbers are exact reals.

## Model

| member | source | states |
|---|---|---|
| `Values.AllNumbers` | index.js:32 | `every(num => typeof num === "number")` over the elements holds exactly when each element is a number |
| `Values.IsNumberArray` | index.js:32 | the shape condition holds exactly for an array every element of which is a number; anything else (string, other value, array with a non-number) fails it |
| `Values.NumbersOf` | index.js:32 | for an array whose every element is a number, gives its numbers in order: same length, element `i` is `Num` of entry `i` |
| `Values.FromNumbers` | index.js:32 | the array built from a list of reals passes the shape check, and reading its numbers back gives the same list |
| `Values.CheckNumbers` | index.js:32-33 | the shape check passes exactly when the value is an array and every element is a number; it then returns those numbers in order; otherwise it fails with `InvalidArgument` carrying the caller's message |
| `Values.CheckedIsFromNumbers` | index.js:32 | every input that passes the shape check is exactly the array of the numbers it returns |
| `Values.CheckRejects` | index.js:79-80 | a non-array, or an array with any non-number element, is rejected with the caller's message |
| `Sorting.Insert` | index.js:86 | inserting into an ascending list keeps it ascending and adds exactly one copy of the element |
| `Sorting.Sort` | index.js:86 | the reference sort returns an ascending permutation of its input |
| `Sorting.SortedUnique` | index.js:86 | two ascending lists with the same multiset of elements are equal, so any correct sort of the copy gives `Sort` of the input |
| `Sorting.SortOfSorted` | index.js:86 | sorting an ascending list leaves it unchanged |
| `Sorting.SortPermutation` | index.js:86 | inputs that are permutations of each other sort to the same list |
| `Sorting.SortInPlace` | index.js:86 | the in-place sort leaves the array ascending and a permutation of its old contents |
| `Sorting.SortEnds` | index.js:86 | the sorted list has the input's length; its first element is the input's minimum and its last is the maximum |
| `Stats.SumOf` | index.js:35 | defines `reduce((acc, curr) => acc + curr, 0)`: 0 for the empty list, else the total of all but the last number plus the last; its properties are stated by `SumAppend`, `SumPermutation`, `SumBetween` and `MeanBetween` |
| `Stats.SumAppend` | index.js:35 | the fold splits at any point: `SumOf(a + b) == SumOf(a) + SumOf(b)` |
| `Stats.SumSingle` | index.js:35 | the fold of one number is that number: 0 plus it |
| `Stats.SumPermutation` | index.js:35 | the total does not depend on the order of the numbers, so reversing or shuffling keeps it |
| `Stats.SumBetween` | index.js:35 | a total of `n` numbers, each between `lo` and `hi`, lies between `n * lo` and `n * hi` |
| `Stats.Sum` | index.js:31-36 | `sum` fails with "Input must be an array of numbers." exactly when the shape check fails; otherwise it returns the left fold of the numbers, which is 0 for the empty array |
| `Stats.Average` | index.js:53-61 | `average` fails first on shape, with "Input must be a non-empty array of numbers.", then on an empty array, with "Array cannot be empty."; on any non-empty array of numbers it returns exactly the sum divided by the length |
| `Stats.AverageWithinRange` | index.js:60 | the average of a non-empty array of numbers is defined and lies between the array's minimum and maximum |
| `Stats.MeanBetween` | index.js:60 | the total of a non-empty list whose numbers all lie between `lo` and `hi`, divided by its length, lies between `lo` and `hi` |
| `Stats.AverageOfNumbers` | index.js:53-61 | on the array holding a non-empty list of numbers, `average` passes both checks and returns exactly `sum` of it divided by its length |
| `Stats.IsEven` | index.js:108-110 | when `isEven(n)` holds, `n` is twice `n / 2`, so `n / 2 - 1` and `n / 2` are the two middle indices; otherwise `n` is twice `n / 2` plus one, so `n / 2` is the middle index |
| `Stats.Middle` | index.js:87-91 | the value read off a sorted list at `midIndex = floor(n / 2)`: the element at `midIndex` for an odd length, the mean of the elements at `midIndex - 1` and `midIndex` for an even one (so the ternary on `isEven` picks the right case); `MiddleWithinRange` and `MiddleSplitsInHalves` state that it is a median |
| `Stats.MedianOf` | index.js:86-91 | defines the median of a non-empty list as `Middle` of its reference sort; `MedianFromSorted` shows any ascending permutation gives the same value, and `MedianWithinRange`, `MedianPermutation` and `MedianSplitsInHalves` state its properties |
| `Stats.MedianResult` | index.js:78-84 | `median` fails with "Input must be an array of numbers." when the shape check fails, and then with "Array cannot be empty." for an empty array; otherwise it returns the median of the numbers |
| `Stats.MedianFromSorted` | index.js:86-91 | for any ascending permutation `u` of a non-empty input, the median is the middle of `u`: `u[n/2]` when the length is odd and `(u[n/2 - 1] + u[n/2]) / 2` when it is even |
| `Stats.SortedCopy` | index.js:86 | `[...nums].sort(...)` gives a freshly allocated array whose contents are the reference sort of the input |
| `Stats.Median` | index.js:78-92 | the method returns the same result as `MedianResult`, so it has the same errors, in the same order, and the same median; it has no `modifies` clause, so it changes no object that existed before the call |
| `Stats.MiddleWithinRange` | index.js:87-91 | the middle read off a sorted array lies between its first and last elements |
| `Stats.MedianWithinRange` | index.js:87-91 | the median lies between the input's minimum and maximum |
| `Stats.MedianPermutation` | index.js:86 | the median does not depend on the order of the input |
| `Stats.MiddleSplitsInHalves` | index.js:87-91 | in a sorted array, at least half of the elements are at most its middle and at least half are at least it |
| `Stats.MedianSplitsInHalves` | index.js:87-91 | at least half of the numbers are at most the median, and at least half are at least it |
| `Stats.ResultsIgnoreOrder` | index.js:31-92 | `sum`, `average` and `median` of two arrays that hold the same numbers, in any order, give the same results, including the same errors |
| `Stats.EmptyMessageOnlyForEmptyArray` | index.js:79-84 | `average` and `median` report "Array cannot be empty." exactly for the empty array; because the shape check comes first, a non-array never gets that message |
| `Stats.SumOfEmptyArray` | index.test.js:9-11 | `sum([])` is 0 |
| `Stats.AverageOfEmptyArray` | index.test.js:26-28 | `average([])` fails with "Array cannot be empty." |
| `Stats.MedianOfEmptyArray` | index.test.js:47-49 | `median([])` fails with "Array cannot be empty." |
| `Stats.SumOfString` | index.test.js:13-15 | `sum("not an array")` fails with "Input must be an array of numbers." |
| `Stats.AverageOfString` | index.test.js:30-32 | `average("not an array")` fails with "Input must be a non-empty array of numbers." |
| `Stats.MedianOfString` | index.test.js:43-45 | `median("not an array")` fails with "Input must be an array of numbers." |
| `Stats.SumAndAverageExample` | index.test.js:5-20 | `sum([1, 2, 4, 8, 16])` is 31 and `average([1, 2, 4, 8, 16])` is 6.2 |
| `Stats.MedianOddExample` | index.test.js:35-37 | `median([1, 3, 5])` is 3 |
| `Stats.MedianEvenExample` | index.test.js:39-41 | `median([1, 2, 3, 4])` is 2.5 |

## Left out

- IEEE-754 doubles: numbers are exact reals. `average([1, 2, 4])` is exactly 7/3 here, so the rounding behind the test's approximate comparison is not modelled.
- NaN and Infinity: `typeof x === "number"` accepts them, and the `a - b` comparator misbehaves on NaN. Exact reals have no counterpart for either.
- The sort algorithm: the engine's built-in `.sort` is replaced by an insertion sort. `Sorting.SortedUnique` shows that any ascending permutation gives the same array, so the choice of algorithm cannot change the median.
- The comparator `(a, b) => a - b` is modelled as ascending numeric order on reals.
- Stats.IsEven: JavaScript's `%` truncates toward zero, while Dafny's is Euclidean. For the test `n % 2 === 0` the two agree on every integer, including negatives. The only caller passes an array length.
- Aliasing of the input: the input is an immutable `Value`, so "median never mutates its argument" holds by construction. The model does not show a caller's array object being left untouched. What it captures is that the sort runs on a freshly allocated copy.
- The error class: the model keeps only the `InvalidArgument` tag and the message. It leaves out the `Error` inheritance, the `name` field and the default message "Invalid argument provided", which no call site uses.
- Sparse arrays: an array with holes cannot be written as a `Value`, whose arrays hold a value at every index. In JavaScript `every` and `reduce` skip holes, so the shape check accepts such an array. Then `sum([1, , 3])` is 4 and `average([1, , 3])` is 4/3, because the length still counts the hole. `median([1, , 3])` is 3, because the spread turns the hole into `undefined` and `sort` moves it to the end, giving `[1, 3, undefined]`. `average(new Array(5))` is 0 and `median(new Array(1))` is `undefined`. None of these results is modelled.
- `module.exports` and the test harness in index.test.js: the tests' assertions appear only as the example lemmas above.
