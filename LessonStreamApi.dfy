/** The ten read-only queries over a list of employees. Each query is the stream
    pipeline of the corresponding `taskN` method, written with the operations of
    module Streams; task 7 is given both as a function and as the scan over a
    mutable set of names that the original performs. */
module LessonStreamApi {
  import opened Wrappers
  import opened JavaInt
  import opened Decimal
  import opened Dto
  import opened Streams

  // ---------------------------------------------------------------------------
  // The lambdas and method references the pipelines use

  /** An efficient employee is one rated strictly above 50. */
  function IsEfficient(e: Employee): bool
  {
    e.rating > 50
  }

  function IsRatedBelow50(e: Employee): bool
  {
    e.rating < 50
  }

  function RatingOf(e: Employee): int
  {
    e.rating
  }

  function NameOf(e: Employee): string
  {
    e.name
  }

  function PositionOf(e: Employee): PositionType
  {
    e.positionType
  }

  // ---------------------------------------------------------------------------
  // Task 1: distinct employees rated above 50

  function Task1(employees: seq<Employee>): (r: seq<Employee>)
    ensures forall e :: e in r <==> e in employees && e.rating > 50
    ensures InFirstOccurrenceOrder(r, employees)
    ensures NoDuplicates(r)
    ensures |r| <= |employees|
  {
    DistinctFilterCharacterised(employees, IsEfficient);
    Filter(Distinct(employees), IsEfficient)
  }

  /** The contract of Task1 leaves no freedom: it is met by Task1's result alone. */
  lemma Task1Characterised(employees: seq<Employee>, r: seq<Employee>)
    requires forall e :: e in r <==> e in employees && e.rating > 50
    requires InFirstOccurrenceOrder(r, employees)
    ensures r == Task1(employees)
  {
    DistinctFilterCharacterised(employees, IsEfficient);
    assert IsDistinctFilter(r, employees, IsEfficient);
  }

  // ---------------------------------------------------------------------------
  // Task 2: "name=rating" for the distinct employees rated below 50

  /** `name + "=" + rating`, with the rating in decimal as Java's string concatenation writes it:
      the name, then '=', then only digits and minus signs, so the rating can be read back
      from the text after the last '=' whatever the name contains. */
  function Label(e: Employee): (r: string)
    ensures |e.name| < |r| && r[..|e.name|] == e.name && r[|e.name|] == '='
    ensures forall k :: |e.name| < k < |r| ==> IsDigit(r[k]) || r[k] == '-'
    ensures RatingOfLabel(r) == e.rating
  {
    var t := IntToString(e.rating);
    var r := e.name + "=" + t;
    assert forall k :: |e.name| < k < |r| ==> r[k] == t[k - |e.name| - 1];
    AfterLastEqualsOfSuffix(e.name, t);
    IntToStringRoundTrip(e.rating);
    r
  }

  /** The text after the last '=' of `s` (all of `s` when it has none). */
  function AfterLastEquals(s: string): string
  {
    if |s| == 0 then ""
    else if s[|s| - 1] == '=' then ""
    else AfterLastEquals(s[..|s| - 1]) + [s[|s| - 1]]
  }

  /** Reads the rating back from a label. */
  function RatingOfLabel(s: string): int
  {
    ParseInt(AfterLastEquals(s))
  }

  lemma {:induction false} AfterLastEqualsOfSuffix(n: string, t: string)
    requires forall k :: 0 <= k < |t| ==> t[k] != '='
    ensures AfterLastEquals(n + "=" + t) == t
  {
    if |t| > 0 {
      var s := n + "=" + t;
      assert s[..|s| - 1] == n + "=" + t[..|t| - 1];
      AfterLastEqualsOfSuffix(n, t[..|t| - 1]);
      assert t == t[..|t| - 1] + [t[|t| - 1]];
    } else {
      assert (n + "=" + t)[..|n + "=" + t| - 1] == n;
    }
  }

  function Task2(employees: seq<Employee>): (r: seq<string>)
    ensures |r| <= |employees|
    ensures forall kept :: IsDistinctFilter(kept, employees, IsRatedBelow50) ==>
              |kept| == |r| && forall i :: 0 <= i < |r| ==> r[i] == Label(kept[i])
    ensures forall s :: s in r ==> exists e :: e in employees && e.rating < 50 && s == Label(e)
    ensures forall e :: e in employees && e.rating < 50 ==> Label(e) in r
  {
    var kept := Filter(Distinct(employees), IsRatedBelow50);
    DistinctFilterCharacterised(employees, IsRatedBelow50);
    MapMembers(kept, Label);
    Map(kept, Label)
  }

  /** An employee rated exactly 50 is selected by neither task 1 nor task 2. */
  lemma RatedFiftyInNeither(employees: seq<Employee>, e: Employee)
    requires e.rating == 50
    ensures e !in Task1(employees)
    ensures Label(e) !in Task2(employees)
  {
  }

  // ---------------------------------------------------------------------------
  // Task 3: the average rating of all employees

  function Task3(employees: seq<Employee>): (r: real)
    ensures |employees| == 0 ==> r == 0.0
    ensures |employees| > 0 ==> r * (|employees| as real) == Sum(Map(employees, RatingOf)) as real
  {
    Average(Map(employees, RatingOf)).GetOr(0.0)
  }

  /** The average lies between any lower and upper bound of the ratings. */
  lemma Task3WithinRatings(employees: seq<Employee>, lo: int, hi: int)
    requires |employees| > 0
    requires forall e :: e in employees ==> lo <= e.rating <= hi
    ensures lo as real <= Task3(employees) <= hi as real
  {
    var ratings := Map(employees, RatingOf);
    assert forall i :: 0 <= i < |ratings| ==> ratings[i] == employees[i].rating && employees[i] in employees;
    AverageWithinBounds(ratings, lo, hi);
  }

  // ---------------------------------------------------------------------------
  // Task 4: all departments merged, without duplicates, highest rating first

  function Task4(departments: seq<seq<Employee>>): (r: seq<Employee>)
    ensures forall e :: e in r <==> exists d :: 0 <= d < |departments| && e in departments[d]
    ensures NoDuplicates(r)
    ensures forall i, j :: 0 <= i < j < |r| ==> r[i].rating >= r[j].rating
    ensures TiesInOrder(r, Flatten(departments), RatingOf)
    ensures |r| <= |Flatten(departments)|
  {
    var all := Flatten(departments);
    var unique := Distinct(all);
    SortDescendingIsStable(unique, all, RatingOf);
    var r := SortDescending(unique, RatingOf);
    PermutationFacts(r, unique);
    r
  }

  // ---------------------------------------------------------------------------
  // Task 5: one page of the list

  /** The IllegalArgumentExceptions task 5 can end in: a page size that is not positive
      (thrown by task 5 itself), or a negative count handed to Stream.skip. */
  datatype PageError = InvalidPageSize(limit: int32) | NegativeSkip(skip: int)

  /** `(offset - 1) * limit` evaluated in Java `int` arithmetic: both the subtraction and
      the product wrap around. The result is the `int` congruent to the exact product, which
      is the exact product whenever that fits in an `int`. */
  function SkipCount(limit: int32, offset: int32): (r: int32)
    ensures (r as int - (offset as int - 1) * limit as int) % Modulus == 0
    ensures -0x8000_0000 <= (offset as int - 1) * limit as int < 0x8000_0000 ==>
              r as int == (offset as int - 1) * limit as int
  {
    var d, l := offset as int - 1, limit as int;
    var w := Wrap(d);
    var r := Wrap(w as int * l);
    CongruentTimes(w as int, d, l);
    CongruentTrans(r as int, w as int * l, d * l);
    CongruentInRange(r as int, d * l);
    r
  }

  /** Task 5 as written: `limit` is the page size, `offset` the 1-based page number,
      and the number of elements skipped is computed in 32-bit arithmetic. */
  function Task5(employees: seq<Employee>, limit: int32, offset: int32): (r: Result<seq<Employee>, PageError>)
    ensures limit <= 0 ==> r == Err(InvalidPageSize(limit))
    ensures limit > 0 && SkipCount(limit, offset) < 0 ==> r == Err(NegativeSkip(SkipCount(limit, offset) as int))
    ensures limit > 0 && SkipCount(limit, offset) >= 0 ==>
              var s := SkipCount(limit, offset) as int;
              r == Ok(employees[Min(s, |employees|)..Min(s + limit as int, |employees|)])
  {
    if limit <= 0 then Err(InvalidPageSize(limit))
    else
      var s := SkipCount(limit, offset);
      if s < 0 then Err(NegativeSkip(s as int))
      else
        SkipThenTake(employees, s as nat, limit as nat);
        Ok(Take(Skip(employees, s as nat), limit as nat))
  }

  /** `(offset - 1) * limit` evaluated exactly, as a Java `long` product would be. */
  function ExactSkipCount(limit: int32, offset: int32): (s: int)
    ensures limit > 0 && offset > 0 ==> 0 <= s == (offset as int - 1) * limit as int
    ensures limit > 0 && offset <= 0 ==> s < 0
  {
    var n, l := offset as int - 1, limit as int;
    assert n >= 0 && l > 0 ==> n * l >= 0;
    assert n < 0 && l > 0 ==> n * l < 0;
    n * l
  }

  /** Task 5 with the skip count computed exactly. */
  function Page(employees: seq<Employee>, limit: int32, offset: int32): (r: Result<seq<Employee>, PageError>)
    ensures limit <= 0 ==> r == Err(InvalidPageSize(limit))
    ensures limit > 0 && offset <= 0 ==> r == Err(NegativeSkip(ExactSkipCount(limit, offset)))
    ensures limit > 0 && offset > 0 ==>
              var s := ExactSkipCount(limit, offset);
              && r == Ok(employees[Min(s, |employees|)..Min(s + limit as int, |employees|)])
              && |r.value| <= limit as int
              && (s >= |employees| ==> r.value == [])
  {
    if limit <= 0 then Err(InvalidPageSize(limit))
    else
      var s := ExactSkipCount(limit, offset);
      if s < 0 then Err(NegativeSkip(s))
      else
        SkipThenTake(employees, s, limit as nat);
        Ok(Take(Skip(employees, s), limit as nat))
  }

  /** The next page starts exactly one page size further on. */
  lemma NextSkipCount(limit: int32, offset: int32)
    requires limit > 0 && 0 < offset < 0x7fff_ffff
    ensures ExactSkipCount(limit, offset + 1) == ExactSkipCount(limit, offset) + limit as int
  {
    var l, o := limit as int, offset as int;
    assert (offset + 1) as int - 1 == o;
    assert o * l == (o - 1) * l + l;
  }

  /** Consecutive pages tile the list: page n followed by page n + 1 is the slice that
      starts where page n starts and is twice the page size long. */
  lemma ConsecutivePages(employees: seq<Employee>, limit: int32, offset: int32)
    requires limit > 0 && 0 < offset < 0x7fff_ffff
    ensures Page(employees, limit, offset).Ok? && Page(employees, limit, offset + 1).Ok?
    ensures var s := ExactSkipCount(limit, offset);
            Page(employees, limit, offset).value + Page(employees, limit, offset + 1).value
            == employees[Min(s, |employees|)..Min(s + 2 * limit as int, |employees|)]
  {
    var s, l, n := ExactSkipCount(limit, offset), limit as int, |employees|;
    NextSkipCount(limit, offset);
    var a, b, c := Min(s, n), Min(s + l, n), Min(s + 2 * l, n);
    var t := ExactSkipCount(limit, offset + 1);
    assert t == s + l && Min(t, n) == b && Min(t + l, n) == c;
    var p1, p2 := Page(employees, limit, offset), Page(employees, limit, offset + 1);
    assert p1.value == employees[a..b];
    assert p2.value == employees[Min(t, n)..Min(t + l, n)];
    SliceConcat(employees, a, b, c);
  }

  /** Where the 32-bit product does not overflow, task 5 as written and the exact page agree. */
  lemma Task5WithoutOverflow(employees: seq<Employee>, limit: int32, offset: int32)
    requires limit > 0 && offset > 0
    requires (offset as int - 1) * limit as int <= 0x7fff_ffff
    ensures Task5(employees, limit, offset) == Page(employees, limit, offset)
  {
    assert Wrap(offset as int - 1) as int == offset as int - 1;
  }

  /** Page 65537 of size 65536 asks to skip 2^32 elements; in 32-bit arithmetic that count
      wraps to 0, so task 5 returns the first page where the list has no such page. */
  lemma Task5OverflowReturnsFirstPage(employees: seq<Employee>)
    requires 0 < |employees| <= 0x7fff_ffff
    ensures SkipCount(65536, 65537) == 0
    ensures Task5(employees, 65536, 65537) == Ok(employees[..Min(65536, |employees|)])
    ensures Page(employees, 65536, 65537) == Ok([])
    ensures Task5(employees, 65536, 65537) != Page(employees, 65536, 65537)
  {
    assert Wrap(65536) == 65536;
    assert Wrap(65536 * 65536) == 0;
  }

  function SampleEmployee(i: int): Employee
  {
    Employee(i, "Name" + IntToString(i), 10 + i, PositionType(0))
  }

  /** The documented example: six employees rated 11..16, pages of three. */
  lemma Task5DocumentedExample()
    ensures var xs := seq(6, i requires 0 <= i < 6 => SampleEmployee(i + 1));
            && Task5(xs, 3, 1) == Ok(xs[..3])
            && Task5(xs, 3, 2) == Ok(xs[3..])
            && Task5(xs, 3, 3) == Ok([])
            && Task5(xs, 0, 1) == Err(InvalidPageSize(0))
            && Task5(xs, -3, 1) == Err(InvalidPageSize(-3))
            && Task5(xs, 3, 0) == Err(NegativeSkip(-3))
  {
    assert SkipCount(3, 1) == 0 && SkipCount(3, 2) == 3 && SkipCount(3, 3) == 6;
    assert SkipCount(3, 0) == -3;
    var xs := seq(6, i requires 0 <= i < 6 => SampleEmployee(i + 1));
    assert Task5(xs, 3, 2).value == xs[3..6] == xs[3..];
  }

  // ---------------------------------------------------------------------------
  // Task 6: the names, bracketed and separated by ", "

  /** The reducer `(a, b) -> a + ", " + b`. */
  function CommaJoin(a: string, b: string): string
  {
    a + ", " + b
  }

  lemma {:induction false} FoldCommaJoin(acc: string, ns: seq<string>)
    ensures FoldLeft(acc, ns, CommaJoin) == if |ns| == 0 then acc else acc + ", " + Joined(ns, ", ")
    decreases |ns|
  {
    if |ns| > 0 {
      var init, last := ns[..|ns| - 1], ns[|ns| - 1];
      var folded := FoldLeft(acc, init, CommaJoin);
      FoldLeftLast(acc, ns, CommaJoin);
      assert FoldLeft(acc, ns, CommaJoin) == folded + ", " + last;
      FoldCommaJoin(acc, init);
      if |init| > 0 {
        var j := Joined(init, ", ");
        assert folded == acc + ", " + j;
        assert ns == init + [last];
        JoinedAppend(init, last, ", ");
        assert Joined(ns, ", ") == j + ", " + last;
        assert folded + ", " + last == acc + ", " + (j + ", " + last);
      } else {
        assert folded == acc;
        assert ns == [last];
      }
    }
  }

  /** Reducing with the comma reducer is Collectors.joining(", ") on a non-empty stream. */
  lemma ReduceIsJoining(ns: seq<string>)
    ensures |ns| > 0 ==> Reduce(ns, CommaJoin) == Some(Joined(ns, ", "))
  {
    if |ns| > 0 {
      FoldCommaJoin(ns[0], ns[1..]);
      if |ns| == 1 {
        assert Joined(ns, ", ") == ns[0];
      }
    }
  }

  function Task6(employees: seq<Employee>): (r: string)
    ensures |employees| == 0 ==> r == "[empty list]"
    ensures |employees| > 0 ==> r == "[" + Joined(Map(employees, NameOf), ", ") + "]"
  {
    ReduceIsJoining(Map(employees, NameOf));
    "[" + Reduce(Map(employees, NameOf), CommaJoin).GetOr("empty list") + "]"
  }

  lemma ExampleNames(xs: seq<Employee>)
    requires |xs| == 3 && xs[0].name == "Ivan" && xs[1].name == "Olga" && xs[2].name == "John"
    ensures Map(xs, NameOf) == ["Ivan", "Olga", "John"]
  {
    var names := Map(xs, NameOf);
    assert names[0] == "Ivan" && names[1] == "Olga" && names[2] == "John";
  }

  lemma ExampleJoined()
    ensures Joined(["Ivan", "Olga", "John"], ", ") == "Ivan, Olga, John"
  {
    var names, tail := ["Ivan", "Olga", "John"], ["Olga", "John"];
    assert names[1..] == tail;
    assert tail[1..] == ["John"];
    assert Joined(tail, ", ") == "Olga" + ", " + "John";
  }

  /** The documented example: three employees named Ivan, Olga and John, whatever their
      other fields, are listed as "[Ivan, Olga, John]". */
  lemma Task6DocumentedExample(xs: seq<Employee>)
    requires |xs| == 3 && xs[0].name == "Ivan" && xs[1].name == "Olga" && xs[2].name == "John"
    ensures Task6(xs) == "[Ivan, Olga, John]"
  {
    var joined := "Ivan, Olga, John";
    assert "[" + joined + "]" == "[Ivan, Olga, John]";
    ExampleNames(xs);
    ExampleJoined();
    assert Task6(xs) == "[" + joined + "]";
  }

  // ---------------------------------------------------------------------------
  // Task 7: is some name used twice?

  lemma NoDuplicatesCons<T(!new)>(x: T, t: seq<T>)
    ensures NoDuplicates([x] + t) <==> x !in t && NoDuplicates(t)
  {
    var s := [x] + t;
    assert forall i :: 0 <= i < |t| ==> s[i + 1] == t[i];
    if !NoDuplicates(t) {
      var i, j :| 0 <= i < j < |t| && t[i] == t[j];
      assert s[i + 1] == s[j + 1];
    }
    if x in t {
      var j :| 0 <= j < |t| && t[j] == x;
      assert s[0] == s[j + 1];
    }
  }

  /** The `anyMatch(name -> !uniqNames.add(name))` scan, started with the names in `seen`. */
  function AnyNameRepeats(names: seq<string>, seen: set<string>): (r: bool)
    ensures r <==> (exists i :: 0 <= i < |names| && names[i] in seen) || !NoDuplicates(names)
  {
    if |names| == 0 then false
    else if names[0] in seen then true
    else
      NoDuplicatesCons(names[0], names[1..]);
      assert names == [names[0]] + names[1..];
      assert forall i :: 1 <= i < |names| ==> names[i] == names[1..][i - 1];
      AnyNameRepeats(names[1..], seen + {names[0]})
  }

  function Task7(employees: seq<Employee>): (r: bool)
    ensures r <==> exists i, j :: 0 <= i < j < |employees| && employees[i].name == employees[j].name
  {
    AnyNameRepeats(Map(employees, NameOf), {})
  }

  /** Task 7 as the original runs it: a scan that adds each name to a set and stops at
      the first name the set already holds. */
  method Task7Scan(employees: seq<Employee>) returns (found: bool)
    ensures found <==> exists i, j :: 0 <= i < j < |employees| && employees[i].name == employees[j].name
    ensures found == Task7(employees)
  {
    var uniqNames: set<string> := {};
    var k := 0;
    while k < |employees|
      invariant 0 <= k <= |employees|
      invariant uniqNames == set i | 0 <= i < k :: employees[i].name
      invariant forall i, j :: 0 <= i < j < k ==> employees[i].name != employees[j].name
    {
      var name := employees[k].name;
      var added := name !in uniqNames;
      uniqNames := uniqNames + {name};
      if !added {
        ghost var i :| 0 <= i < k && employees[i].name == name;
        return true;
      }
      k := k + 1;
    }
    return false;
  }

  // ---------------------------------------------------------------------------
  // Tasks 8, 9 and 10: grouping

  function Task8(employees: seq<Employee>): (r: map<PositionType, real>)
    ensures forall p :: p in r <==> exists e :: e in employees && e.positionType == p
    ensures forall p :: p in r ==> |WithKey(employees, PositionOf, p)| > 0
    ensures forall p :: p in r ==> r[p] == Task3(WithKey(employees, PositionOf, p))
  {
    var groups := GroupBy(employees, PositionOf);
    GroupingKeys(groups, employees, PositionOf);
    map p | p in groups :: Task3(groups[p])
  }

  function Task9(employees: seq<Employee>): (r: map<bool, nat>)
    ensures forall b :: b in r <==> exists e :: e in employees && IsEfficient(e) == b
    ensures forall b :: b in r ==> r[b] == |WithKey(employees, IsEfficient, b)| && r[b] > 0
    ensures (if true in r then r[true] else 0) + (if false in r then r[false] else 0) == |employees|
  {
    var groups := GroupBy(employees, IsEfficient);
    GroupingKeys(groups, employees, IsEfficient);
    PartitionSizes(employees, IsEfficient);
    map b | b in groups :: |groups[b]|
  }

  function Task10(employees: seq<Employee>): (r: map<bool, string>)
    ensures forall b :: b in r <==> exists e :: e in employees && IsEfficient(e) == b
    ensures forall b :: b in r ==> r[b] == Joined(Map(WithKey(employees, IsEfficient, b), NameOf), ", ")
  {
    var groups := GroupBy(employees, IsEfficient);
    GroupingKeys(groups, employees, IsEfficient);
    map b | b in groups :: Joined(Map(groups[b], NameOf), ", ")
  }
}
