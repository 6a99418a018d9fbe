/**
 * Ordering of the loaded listings by their `date` field, newest first.
 *
 * The comparator is the loader's own: 1 when both dates are truthy and the
 * first is smaller, -1 when both are truthy otherwise (equal dates
 * included), 0 when either is missing or falsy. It is not a consistent
 * order, so no order is stated for missing or repeated dates. The sorting
 * algorithm is an insertion sort driven by that comparator; when every date
 * is a distinct non-empty string, SortedPermutationUnique shows that any
 * sort whatsoever yields the same sequence.
 */
module DateSort {
  import opened Values

  const DateKey := "date"

  /** The comparator passed to `sort`. */
  function Compare(a: Record, b: Record): (c: int)
    ensures -1 <= c <= 1
    ensures c == 0 <==> !(DateKey in a && DateKey in b && Truthy(a[DateKey]) && Truthy(b[DateKey]))
    ensures c == 1 ==> JsLess(a[DateKey], b[DateKey])
  {
    if DateKey in a && DateKey in b && Truthy(a[DateKey]) && Truthy(b[DateKey]) then
      if JsLess(a[DateKey], b[DateKey]) then 1 else -1
    else 0
  }

  /** The record has a date the comparator can order: a non-empty string. */
  predicate Dated(r: Record) {
    DateKey in r && r[DateKey].Str? && r[DateKey].s != ""
  }

  function DateOf(r: Record): string
    requires Dated(r)
  {
    r[DateKey].s
  }

  /** Every record is dated and each date is older than the ones before it. */
  predicate StrictlyDescending(rs: seq<Record>) {
    && (forall i :: 0 <= i < |rs| ==> Dated(rs[i]))
    && (forall i, j :: 0 <= i < j < |rs| ==> StrLess(DateOf(rs[j]), DateOf(rs[i])))
  }

  /** Every record is dated and no two records share a date. */
  predicate AllDatedDistinct(rs: seq<Record>) {
    && (forall i :: 0 <= i < |rs| ==> Dated(rs[i]))
    && (forall i, j :: 0 <= i < |rs| && 0 <= j < |rs| && i != j ==> DateOf(rs[i]) != DateOf(rs[j]))
  }

  /**
   * On two records with different string dates the comparator is
   * antisymmetric and puts the newer date first.
   */
  lemma CompareOnDistinctDates(a: Record, b: Record)
    requires Dated(a) && Dated(b) && DateOf(a) != DateOf(b)
    ensures Compare(a, b) == -Compare(b, a) != 0
    ensures Compare(a, b) < 0 <==> StrLess(DateOf(b), DateOf(a))
  {
    StrLessTotal(DateOf(a), DateOf(b));
    StrLessAsymmetric(DateOf(a), DateOf(b));
  }

  /**
   * The comparator's inconsistency: two records with the same date each
   * claim to come before the other, even a record compared with itself.
   */
  lemma CompareEqualDates(a: Record, b: Record)
    requires Dated(a) && Dated(b) && DateOf(a) == DateOf(b)
    ensures Compare(a, b) == -1 && Compare(b, a) == -1
  {
    StrLessIrreflexive(DateOf(a));
  }

  /** Place `x` into `s`: it moves past every element the comparator puts before it. */
  function Insert(x: Record, s: seq<Record>): (r: seq<Record>)
    ensures multiset(r) == multiset(s) + multiset{x}
  {
    if s == [] then [x]
    else if Compare(x, s[0]) > 0 then
      assert s == [s[0]] + s[1..];
      [s[0]] + Insert(x, s[1..])
    else [x] + s
  }

  /** Dropping the newest record keeps the rest strictly descending. */
  lemma DescendingTail(s: seq<Record>)
    requires |s| > 0 && StrictlyDescending(s)
    ensures StrictlyDescending(s[1..])
  {
    var t := s[1..];
    forall i, j | 0 <= i < j < |t| ensures StrLess(DateOf(t[j]), DateOf(t[i])) {
      assert t[j] == s[j + 1] && t[i] == s[i + 1];
    }
  }

  lemma {:induction false} InsertKeepsDescending(x: Record, s: seq<Record>)
    requires Dated(x) && StrictlyDescending(s)
    requires forall i :: 0 <= i < |s| ==> DateOf(s[i]) != DateOf(x)
    ensures StrictlyDescending(Insert(x, s))
    decreases |s|
  {
    if s == [] {
    } else if Compare(x, s[0]) > 0 {
      DescendingTail(s);
      InsertKeepsDescending(x, s[1..]);
      InsertBehindHead(x, s);
    } else {
      InsertInFront(x, s);
    }
  }

  /** The comparator puts `x` behind the newest record, which stays newest. */
  lemma InsertBehindHead(x: Record, s: seq<Record>)
    requires Dated(x) && |s| > 0 && StrictlyDescending(s)
    requires Compare(x, s[0]) > 0
    requires StrictlyDescending(Insert(x, s[1..]))
    ensures StrictlyDescending(Insert(x, s))
  {
    var u := Insert(x, s[1..]);
    assert StrLess(DateOf(x), DateOf(s[0]));
    forall j | 0 <= j < |u| ensures StrLess(DateOf(u[j]), DateOf(s[0])) {
      OlderThanHead(x, s, u[j]);
    }
    ConsDescending(s[0], u);
  }

  /** What InsertBehindHead places after the newest record is older than it. */
  lemma OlderThanHead(x: Record, s: seq<Record>, e: Record)
    requires Dated(x) && |s| > 0 && StrictlyDescending(s)
    requires StrLess(DateOf(x), DateOf(s[0]))
    requires e in multiset(s[1..]) + multiset{x}
    ensures Dated(e) && StrLess(DateOf(e), DateOf(s[0]))
  {
    if e != x {
      var t := s[1..];
      assert e in multiset(t);
      var k :| 0 <= k < |t| && t[k] == e;
      assert e == s[k + 1];
    }
  }

  /** The comparator puts `x` in front: its date is newer than all of `s`. */
  lemma InsertInFront(x: Record, s: seq<Record>)
    requires Dated(x) && |s| > 0 && StrictlyDescending(s)
    requires DateOf(s[0]) != DateOf(x)
    requires Compare(x, s[0]) <= 0
    ensures StrictlyDescending(Insert(x, s))
  {
    CompareOnDistinctDates(x, s[0]);
    forall j | 0 <= j < |s| ensures StrLess(DateOf(s[j]), DateOf(x)) {
      if j > 0 {
        StrLessTransitive(DateOf(s[j]), DateOf(s[0]), DateOf(x));
      }
    }
    ConsDescending(x, s);
  }

  /** A dated record newer than everything in a newest-first sequence can lead it. */
  lemma ConsDescending(h: Record, u: seq<Record>)
    requires Dated(h) && StrictlyDescending(u)
    requires forall j :: 0 <= j < |u| ==> StrLess(DateOf(u[j]), DateOf(h))
    ensures StrictlyDescending([h] + u)
  {
    var r := [h] + u;
    forall i, j | 0 <= i < j < |r| ensures StrLess(DateOf(r[j]), DateOf(r[i])) {
      assert r[j] == u[j - 1];
      if i > 0 {
        assert r[i] == u[i - 1];
      }
    }
  }

  /** `sort(Compare)` on the loaded listings: a permutation of them. */
  function SortByDate(xs: seq<Record>): (r: seq<Record>)
    ensures multiset(r) == multiset(xs)
  {
    if xs == [] then []
    else
      assert xs == [xs[0]] + xs[1..];
      Insert(xs[0], SortByDate(xs[1..]))
  }

  /** When every date is a distinct non-empty string, the sort puts the newest first. */
  lemma {:induction false} SortByDateDescending(xs: seq<Record>)
    ensures AllDatedDistinct(xs) ==> StrictlyDescending(SortByDate(xs))
  {
    if xs != [] && AllDatedDistinct(xs) {
      DistinctTail(xs);
      SortByDateDescending(xs[1..]);
      SortedInsertPreconditions(xs, SortByDate(xs[1..]));
      InsertKeepsDescending(xs[0], SortByDate(xs[1..]));
    }
  }

  lemma DistinctTail(xs: seq<Record>)
    requires |xs| > 0 && AllDatedDistinct(xs)
    ensures AllDatedDistinct(xs[1..])
  {
    var t := xs[1..];
    forall i, j | 0 <= i < |t| && 0 <= j < |t| && i != j ensures DateOf(t[i]) != DateOf(t[j]) {
      assert t[i] == xs[i + 1] && t[j] == xs[j + 1];
    }
  }

  /** The facts that let SortByDate insert the first record into the sorted rest. */
  lemma SortedInsertPreconditions(xs: seq<Record>, rest: seq<Record>)
    requires |xs| > 0 && AllDatedDistinct(xs)
    requires multiset(rest) == multiset(xs[1..])
    requires StrictlyDescending(rest)
    ensures forall i :: 0 <= i < |rest| ==> DateOf(rest[i]) != DateOf(xs[0])
  {
    var t := xs[1..];
    forall i | 0 <= i < |rest| ensures DateOf(rest[i]) != DateOf(xs[0]) {
      assert rest[i] in multiset(t);
      var k :| 0 <= k < |t| && t[k] == rest[i];
      assert t[k] == xs[k + 1];
    }
  }

  /** Two strictly newest-first permutations of each other start with the same listing. */
  lemma SameNewest(xs: seq<Record>, ys: seq<Record>)
    requires |xs| > 0 && |ys| > 0 && multiset(xs) == multiset(ys)
    requires StrictlyDescending(xs) && StrictlyDescending(ys)
    ensures xs[0] == ys[0]
  {
    assert xs[0] in multiset(ys) && ys[0] in multiset(xs);
    var k :| 0 <= k < |ys| && ys[k] == xs[0];
    var m :| 0 <= m < |xs| && xs[m] == ys[0];
    if k != 0 {
      // ys[0] is newer than ys[k] == xs[0], and xs[m] == ys[0] is not newer than xs[0].
      assert StrLess(DateOf(xs[0]), DateOf(ys[0]));
      if m == 0 {
        StrLessIrreflexive(DateOf(xs[0]));
      } else {
        assert StrLess(DateOf(ys[0]), DateOf(xs[0]));
        StrLessAsymmetric(DateOf(xs[0]), DateOf(ys[0]));
      }
    }
  }

  /**
   * With a strict descending order the arrangement is determined by the
   * contents: two strictly descending permutations of each other are equal.
   * So whatever algorithm the engine uses, it returns SortByDate's result
   * when all dates are distinct non-empty strings.
   */
  lemma {:induction false} SortedPermutationUnique(xs: seq<Record>, ys: seq<Record>)
    requires multiset(xs) == multiset(ys)
    requires StrictlyDescending(xs) && StrictlyDescending(ys)
    ensures xs == ys
    decreases |xs|
  {
    if xs != [] {
      assert |ys| == |multiset(ys)| == |multiset(xs)| == |xs|;
      SameNewest(xs, ys);
      assert xs == [xs[0]] + xs[1..] && ys == [ys[0]] + ys[1..];
      assert multiset(xs) == multiset{xs[0]} + multiset(xs[1..]);
      assert multiset(ys) == multiset{ys[0]} + multiset(ys[1..]);
      assert multiset(xs[1..]) == multiset(xs) - multiset{xs[0]};
      DescendingTail(xs);
      DescendingTail(ys);
      SortedPermutationUnique(xs[1..], ys[1..]);
    }
  }
}
