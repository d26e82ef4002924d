# LessonStreamApi in Dafny

The `LessonStreamApi` class is made of ten read-only queries over a list of employees:
`task1` … `task10`. Each one is a Java stream pipeline built from `distinct`, `filter`, `map`,
`flatMap`, `sorted`, `skip`/`limit`, `average`, `reduce`, `anyMatch` and the `groupingBy`
collector, together with its `mapping`, `averagingDouble`, `counting` and `joining` downstreams.
This project models each query as a Dafny function over `seq<Employee>` and proves what
each query is meant to deliver.

The modules are:

- `Wrappers` holds `Option`, which models `Optional`, and `Result`. A `Result` models a value
  or the `IllegalArgumentException` a query can end in.
- `JavaInt` holds Java's 32-bit `int` (`int32`) and its wrap-around (`Wrap`).
- `Decimal` holds `Integer.toString` and its inverse.
- `Dto` holds `Employee`. It also holds `PositionType`, identified by its ordinal.
- `Streams` holds the stream operations and collectors the queries use, on sequences.
  The stream operations are `distinct`, `filter`, `map`, `flatMap`, `sorted` (descending by an
  integer key, stable), `skip`, `limit`, `average`, `reduce` and `Collectors.joining`.
  The collector is `groupingBy` with a list downstream.
- `LessonStreamApi` holds `Task1` … `Task10`. `task7` changes a local `HashSet` while it scans.
  So besides the function `Task7` it is also the method `Task7Scan`, a loop over a set of names.

Some behaviour beyond the method bodies is made explicit:

- `distinct` keeps the first occurrence of each element, in encounter order. This is stated
  through `IndexOf`, the position of an element's first occurrence.
- `sorted(comparingInt(getRating).reversed())` is a stable sort. Employees with equal rating
  keep their relative order from the de-duplicated input.
- `task5` computes the skip count `(offset - 1) * limit` in 32-bit arithmetic.
  `Stream.skip` rejects a negative count, and that rejection is modelled as an error.

## Model

| member | source | states |
|---|---|---|
| Streams.Distinct | src/main/java/ru/lesson/stream/LessonStreamApi.java:21 | the result has exactly the input's elements, each once, in the order of their first occurrence; it is no longer than the input |
| Streams.FirstOccurrenceOrderUnique | src/main/java/ru/lesson/stream/LessonStreamApi.java:21 | two duplicate-free orderings of the same elements that both follow first-occurrence order are equal, so the `distinct` result is determined |
| Streams.Filter | src/main/java/ru/lesson/stream/LessonStreamApi.java:22 | an element is kept exactly when it is in the input and satisfies the predicate; the result is no longer than the input |
| Streams.FilterKeepsOrder | src/main/java/ru/lesson/stream/LessonStreamApi.java:21-22 | filtering a sequence that follows first-occurrence order keeps it in that order |
| Streams.DistinctFilterCharacterised | src/main/java/ru/lesson/stream/LessonStreamApi.java:20-23 | `distinct().filter(p)` yields the elements satisfying `p`, once each, in first-occurrence order, and it is the only sequence that does |
| Streams.Map | src/main/java/ru/lesson/stream/LessonStreamApi.java:35 | same length as the input, and element i is the function applied to input element i |
| Streams.MapMembers | src/main/java/ru/lesson/stream/LessonStreamApi.java:35 | every mapped value comes from some input element, and every input element's image is present |
| Streams.Flatten | src/main/java/ru/lesson/stream/LessonStreamApi.java:58 | the merged list is as long as all departments together, and an element is in it exactly when some department contains it |
| Streams.SortDescending | src/main/java/ru/lesson/stream/LessonStreamApi.java:60 | the result is a permutation of the input (equal multisets) and its keys never increase |
| Streams.InsertKeepsNonIncreasing | src/main/java/ru/lesson/stream/LessonStreamApi.java:60 | inserting into a sequence whose keys never increase keeps the keys from increasing |
| Streams.SortDescendingIsStable | src/main/java/ru/lesson/stream/LessonStreamApi.java:60 | if the input follows first-occurrence order in a reference list, then equal-key elements of the result keep that order |
| Streams.PermutationFacts | src/main/java/ru/lesson/stream/LessonStreamApi.java:59-60 | a permutation has the same length and elements, and sorting a duplicate-free list keeps it duplicate-free |
| Streams.Skip | src/main/java/ru/lesson/stream/LessonStreamApi.java:81 | `skip(n)` drops the first n elements, or every element when there are fewer |
| Streams.Take | src/main/java/ru/lesson/stream/LessonStreamApi.java:82 | `limit(n)` keeps the first n elements, or every element when there are fewer |
| Streams.SkipThenTake | src/main/java/ru/lesson/stream/LessonStreamApi.java:80-83 | `skip(s).limit(l)` is the slice from s of length l, cut short at the end of the list |
| Streams.Average | src/main/java/ru/lesson/stream/LessonStreamApi.java:45-46 | the average is absent exactly for an empty stream; otherwise it times the count is the sum |
| Streams.SumWithinBounds | src/main/java/ru/lesson/stream/LessonStreamApi.java:44-46 | if every value lies in [lo, hi], the sum lies between n·lo and n·hi |
| Streams.AverageWithinBounds | src/main/java/ru/lesson/stream/LessonStreamApi.java:44-46 | if every value of a non-empty stream lies in [lo, hi], so does the average |
| Streams.FoldLeft | src/main/java/ru/lesson/stream/LessonStreamApi.java:98 | folding no elements leaves the accumulator as it is |
| Streams.FoldLeftLast | src/main/java/ru/lesson/stream/LessonStreamApi.java:98 | the sequential fold applies the reducer from left to right: the last element is combined last, with the fold of all the elements before it |
| Streams.Reduce | src/main/java/ru/lesson/stream/LessonStreamApi.java:98 | `reduce` yields a value exactly when the stream is non-empty |
| Streams.Joined | src/main/java/ru/lesson/stream/LessonStreamApi.java:156 | `Collectors.joining(sep)`: no strings give the empty text, one string gives itself, and more strings give the first, `sep`, then the rest joined |
| Streams.JoinedAppend | src/main/java/ru/lesson/stream/LessonStreamApi.java:156 | joining one more string appends `sep` and that string, so the parts appear in their stream order |
| Streams.JoinedLength | src/main/java/ru/lesson/stream/LessonStreamApi.java:156 | the joined text's length is the total length of the parts plus one separator between each adjacent pair |
| Streams.WithKey | src/main/java/ru/lesson/stream/LessonStreamApi.java:125 | a key's bucket holds exactly the input elements the classifier maps to that key, and is no longer than the input |
| Streams.WithKeyAppend | src/main/java/ru/lesson/stream/LessonStreamApi.java:125 | appending an element to the input appends it to its own key's bucket and to no other bucket |
| Streams.AccumulateKeepsGrouping | src/main/java/ru/lesson/stream/LessonStreamApi.java:125 | adding one element to its key's list turns the grouping of a prefix into the grouping of the prefix extended by that element |
| Streams.GroupingKeys | src/main/java/ru/lesson/stream/LessonStreamApi.java:125 | a grouping's keys are exactly the keys that some input element is classified under |
| Streams.GroupBy | src/main/java/ru/lesson/stream/LessonStreamApi.java:125 | a key is present exactly when its bucket is non-empty, and it maps to that bucket in encounter order |
| Streams.PartitionSizes | src/main/java/ru/lesson/stream/LessonStreamApi.java:140-142 | under a boolean classifier the true and false buckets together are as large as the input |
| JavaInt.Wrap | src/main/java/ru/lesson/stream/LessonStreamApi.java:81 | the 32-bit result agrees with the exact product modulo 2^32, and equals it when it fits in an `int` |
| Decimal.IntToString | src/main/java/ru/lesson/stream/LessonStreamApi.java:35 | the decimal text of a rating is non-empty and consists of digits and '-' only |
| Decimal.IntToStringRoundTrip | src/main/java/ru/lesson/stream/LessonStreamApi.java:35 | parsing the decimal text of an integer gives that integer back |
| LessonStreamApi.Task1 | src/main/java/ru/lesson/stream/LessonStreamApi.java:19-24 | the result holds exactly the input employees rated above 50, each once, in first-occurrence order |
| LessonStreamApi.Task1Characterised | src/main/java/ru/lesson/stream/LessonStreamApi.java:19-24 | any list with those members in first-occurrence order is task 1's result |
| LessonStreamApi.Label | src/main/java/ru/lesson/stream/LessonStreamApi.java:35 | `name=rating` starts with the name and '=', continues with digits and minus signs only, and the rating can be read back from the text after its last '=', whatever the name contains |
| LessonStreamApi.Task2 | src/main/java/ru/lesson/stream/LessonStreamApi.java:31-37 | element i is the `name=rating` label of the i-th distinct employee rated below 50, and every such employee's label is present |
| LessonStreamApi.RatedFiftyInNeither | src/main/java/ru/lesson/stream/LessonStreamApi.java:19-37 | an employee rated exactly 50 is selected neither by task 1 nor by task 2 |
| LessonStreamApi.Task3 | src/main/java/ru/lesson/stream/LessonStreamApi.java:43-47 | 0 for no employees; otherwise the average times the count is the rating sum |
| LessonStreamApi.Task3WithinRatings | src/main/java/ru/lesson/stream/LessonStreamApi.java:43-47 | the average rating lies between any bounds of the individual ratings |
| LessonStreamApi.Task4 | src/main/java/ru/lesson/stream/LessonStreamApi.java:56-62 | exactly the employees of some department, each once, by non-increasing rating, with ties in order of first appearance; no longer than the merged list |
| LessonStreamApi.SkipCount | src/main/java/ru/lesson/stream/LessonStreamApi.java:81 | the `int` value of `(offset - 1) * limit` is congruent to the exact product modulo 2^32, and equals it when the product fits in an `int` |
| LessonStreamApi.Task5 | src/main/java/ru/lesson/stream/LessonStreamApi.java:76-84 | a non-positive page size is an error; a negative 32-bit skip count is an error; otherwise the page is the slice from the skip count of at most `limit` elements |
| LessonStreamApi.Page | src/main/java/ru/lesson/stream/LessonStreamApi.java:76-84 | the same page with the skip count computed exactly: a page number below 1 is an error, the page has at most `limit` elements, and a page past the end is empty |
| LessonStreamApi.NextSkipCount | src/main/java/ru/lesson/stream/LessonStreamApi.java:81 | the next page starts one page size later |
| LessonStreamApi.ConsecutivePages | src/main/java/ru/lesson/stream/LessonStreamApi.java:80-83 | page n followed by page n+1 is the slice of twice the page size starting at page n |
| LessonStreamApi.Task5WithoutOverflow | src/main/java/ru/lesson/stream/LessonStreamApi.java:81 | when `(offset - 1) * limit` fits in an `int`, task 5 as written returns the exact page |
| LessonStreamApi.Task5OverflowReturnsFirstPage | src/main/java/ru/lesson/stream/LessonStreamApi.java:81 | page 65537 of size 65536 wraps the skip count to 0 and returns the first page where the exact page is empty |
| LessonStreamApi.Task5DocumentedExample | src/main/java/ru/lesson/stream/LessonStreamApi.java:69-78 | six employees in pages of three: page 1 holds the first three, page 2 the last three, page 3 is empty; page size 0 or -3 and page 0 are errors |
| LessonStreamApi.ReduceIsJoining | src/main/java/ru/lesson/stream/LessonStreamApi.java:98-99 | reducing a non-empty stream of names with `a + ", " + b` is joining them with ", " |
| LessonStreamApi.Task6 | src/main/java/ru/lesson/stream/LessonStreamApi.java:93-103 | "[empty list]" for no employees; otherwise '[' then the names joined by ", " then ']' |
| LessonStreamApi.Task6DocumentedExample | src/main/java/ru/lesson/stream/LessonStreamApi.java:91 | employees named Ivan, Olga and John give "[Ivan, Olga, John]" |
| LessonStreamApi.AnyNameRepeats | src/main/java/ru/lesson/stream/LessonStreamApi.java:112-115 | the scan finds a name that fails to be added exactly when some name was seen before or occurs twice |
| LessonStreamApi.Task7 | src/main/java/ru/lesson/stream/LessonStreamApi.java:111-116 | true exactly when two different positions of the list hold the same name |
| LessonStreamApi.Task7Scan | src/main/java/ru/lesson/stream/LessonStreamApi.java:111-116 | the loop over a growing set of names answers true exactly when two positions hold the same name, which is `Task7` |
| LessonStreamApi.Task8 | src/main/java/ru/lesson/stream/LessonStreamApi.java:123-128 | one entry per position that occurs; each entry's group is non-empty, and its value is the average rating of that position's employees |
| LessonStreamApi.Task9 | src/main/java/ru/lesson/stream/LessonStreamApi.java:138-143 | a key appears exactly when some employee is (in)efficient; its count is that group's non-zero size; the counts add up to the list's length |
| LessonStreamApi.Task10 | src/main/java/ru/lesson/stream/LessonStreamApi.java:152-157 | a key appears exactly when some employee is (in)efficient; its value is that group's names joined by ", " in encounter order |

## Left out

- `double` arithmetic: averages are exact reals. IEEE rounding and the compensated summation of `DoubleStream.average` are not modelled.
- Hashing: `HashSet` and `HashMap` are sets and maps. Iteration order of the result maps is not modelled, and no query depends on it.
- Exception messages: the errors carry the offending value, not the message text `Integer.toString(limit)`.
- `StringBuffer`: its `insert(0, "[")` and `append("]")` are modelled as plain concatenation.
- `PositionType`: the enumeration's constants are not in the source files modelled here. A position is its ordinal.
- The `Employee` class is not part of this model. Its `equals` is taken to compare all fields, which is datatype equality. Its rating is an unbounded integer where the getter returns an `int`. Every use of a rating gives the same result on an `int`-range value as on the unbounded integer. These uses are the comparisons with 50, the `comparingInt` ordering, the decimal text and the `double` sums of the averages, which are exact here.
- Null values are not modelled: a null list, a null department, a null name, a null employee in a list, and a null `positionType`. A null employee makes `getRating` or `getName` throw a `NullPointerException`. A null `positionType` makes `groupingBy` reject the element for its null key.
- Stream laziness and parallel streams are not modelled. In `task7` the names are an eagerly mapped sequence, not produced one at a time by `map(Employee::getName)`. The short-circuit of `anyMatch` is modelled: `AnyNameRepeats` and `Task7Scan` stop at the first repeated name.
- Task5: a negative skip count is the `NegativeSkip` error. That is `Stream.skip`'s `IllegalArgumentException`, not an exception thrown by `task5` itself.

## Findings

| source | as written | input that shows it | evidently intended | confidence | as-written member | corrected member |
|---|---|---|---|---|---|---|
| src/main/java/ru/lesson/stream/LessonStreamApi.java:81 | the skip count `(offset - 1) * limit` is an `int` product, which wraps around | `limit = 65536`, `offset = 65537`: the product 2^32 wraps to 0, so the first page is returned | page 65537 of size 65536 starts past any list an `int`-sized page can reach, so it is empty | not executed (medium) | LessonStreamApi.Task5OverflowReturnsFirstPage | LessonStreamApi.Page |
