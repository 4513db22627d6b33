/** Ordering of the post list newest first. `renderPostList` and `init` both
    sort with the comparator `(a, b) => (a.date < b.date ? 1 : -1)`
    (log.js:70-71, log.js:190): a post goes after every post with a later
    date string. JavaScript's `<` on strings compares them character by
    character; on ISO dates (`YYYY-MM-DD`) that is the calendar order. */
module DateOrder {
  import opened Catalog

  /** `a < b` on JavaScript strings: lexicographic, a proper prefix first. */
  predicate StrLess(a: string, b: string)
    decreases |a|
  {
    if a == [] then b != []
    else if b == [] then false
    else if a[0] != b[0] then a[0] < b[0]
    else StrLess(a[1..], b[1..])
  }

  lemma {:induction false} StrLessIrreflexive(a: string)
    ensures !StrLess(a, a)
    decreases |a|
  {
    if a != [] {
      StrLessIrreflexive(a[1..]);
    }
  }

  lemma {:induction false} StrLessTransitive(a: string, b: string, c: string)
    requires StrLess(a, b) && StrLess(b, c)
    ensures StrLess(a, c)
    decreases |a|
  {
    if a != [] && a[0] == b[0] && b[0] == c[0] {
      StrLessTransitive(a[1..], b[1..], c[1..]);
    }
  }

  /** Any two different strings are ordered one way or the other. */
  lemma {:induction false} StrLessTotal(a: string, b: string)
    ensures a == b || StrLess(a, b) || StrLess(b, a)
    decreases |a|
  {
    if a != [] && b != [] && a[0] == b[0] {
      StrLessTotal(a[1..], b[1..]);
      if a[1..] == b[1..] {
        assert a == [a[0]] + a[1..] && b == [b[0]] + b[1..];
      }
    }
  }

  /** The comparator as written, `(a, b) => (a.date < b.date ? 1 : -1)`:
      a positive answer puts a after b. */
  function CompareDatesAsWritten(a: Post, b: Post): int
  {
    if StrLess(a.date, b.date) then 1 else -1
  }

  /** Two posts with the same date each claim to come first: the comparator
      answers -1 in both argument orders instead of 0, so it is not a
      consistent comparator and the order of such posts is left to the
      engine. */
  lemma AsWrittenTieIsInconsistent(a: Post, b: Post)
    requires a.date == b.date
    ensures CompareDatesAsWritten(a, b) == -1 && CompareDatesAsWritten(b, a) == -1
  {
    StrLessIrreflexive(a.date);
  }

  /** A consistent comparator for newest first: positive when a is earlier
      than b (a goes after b), negative when it is later, zero on a tie. It
      answers positive exactly when the comparator as written does. */
  function CompareDates(a: Post, b: Post): (c: int)
    ensures c > 0 <==> CompareDatesAsWritten(a, b) > 0
  {
    if StrLess(a.date, b.date) then 1 else if StrLess(b.date, a.date) then -1 else 0
  }

  /** CompareDates is a consistent comparator: ties answer zero and swapping
      the arguments flips the sign. */
  lemma CompareDatesConsistent(a: Post, b: Post)
    ensures CompareDates(a, b) == 0 <==> a.date == b.date
    ensures CompareDates(a, b) == -CompareDates(b, a)
    ensures CompareDates(a, b) > 0 <==> StrLess(a.date, b.date)
  {
    StrLessIrreflexive(a.date);
    StrLessTotal(a.date, b.date);
    if StrLess(a.date, b.date) && StrLess(b.date, a.date) {
      StrLessTransitive(a.date, b.date, a.date);
    }
  }

  /** The list is newest first: no post is followed by a post with a later
      date string. */
  predicate DescendingByDate(s: seq<Post>)
  {
    forall i, j :: 0 <= i < j < |s| ==> !StrLess(s[i].date, s[j].date)
  }

  /** Two newest-first orderings of the same posts start with posts of the
      same date, though not necessarily the same post. */
  lemma NewestDateAgrees(a: seq<Post>, b: seq<Post>)
    requires DescendingByDate(a) && DescendingByDate(b)
    requires multiset(a) == multiset(b) && |a| > 0
    ensures |b| > 0 && a[0].date == b[0].date
  {
    assert |b| == |multiset(b)| == |multiset(a)| == |a|;
    assert b[0] in multiset(a) && a[0] in multiset(b);
    var j :| 0 <= j < |a| && a[j] == b[0];
    var k :| 0 <= k < |b| && b[k] == a[0];
    StrLessIrreflexive(a[0].date);
    StrLessIrreflexive(b[0].date);
    assert !StrLess(a[0].date, b[0].date);
    assert !StrLess(b[0].date, a[0].date);
    StrLessTotal(a[0].date, b[0].date);
  }

  /** In-place sort of the post array by date, newest first. The engine's
      sorting algorithm is not part of the script; this one selects, for each
      position in turn, a latest post among those left. */
  method SortByDateDesc(a: array<Post>)
    modifies a
    ensures DescendingByDate(a[..])
    ensures multiset(a[..]) == old(multiset(a[..]))
  {
    var i := 0;
    while i < a.Length
      invariant 0 <= i <= a.Length
      invariant forall k, l :: 0 <= k < l < i ==> !StrLess(a[k].date, a[l].date)
      invariant forall k, l :: 0 <= k < i <= l < a.Length ==> !StrLess(a[k].date, a[l].date)
      invariant multiset(a[..]) == old(multiset(a[..]))
    {
      var m := IndexOfLatest(a, i);
      ghost var latest := a[m];
      assert forall k :: 0 <= k < i ==> !StrLess(a[k].date, latest.date);
      Swap(a, i, m);
      assert a[i] == latest;
      i := i + 1;
    }
  }

  /** The position of a latest-dated post in `a[from..]`. */
  method IndexOfLatest(a: array<Post>, from: nat) returns (m: nat)
    requires from < a.Length
    ensures from <= m < a.Length
    ensures forall l :: from <= l < a.Length ==> !StrLess(a[m].date, a[l].date)
  {
    m := from;
    StrLessIrreflexive(a[from].date);
    for j := from + 1 to a.Length
      invariant from <= m < j
      invariant forall l :: from <= l < j ==> !StrLess(a[m].date, a[l].date)
    {
      CompareDatesConsistent(a[m], a[j]);
      if CompareDates(a[m], a[j]) > 0 {
        forall l | from <= l < j
          ensures !StrLess(a[j].date, a[l].date)
        {
          LaterThanAll(a[m].date, a[j].date, a[l].date);
        }
        StrLessIrreflexive(a[j].date);
        m := j;
      }
    }
  }

  /** Exchanges two posts of the array. */
  method Swap(a: array<Post>, i: int, j: int)
    requires 0 <= i < a.Length && 0 <= j < a.Length
    modifies a
    ensures a[i] == old(a[j]) && a[j] == old(a[i])
    ensures forall k :: 0 <= k < a.Length && k != i && k != j ==> a[k] == old(a[k])
    ensures multiset(a[..]) == old(multiset(a[..]))
  {
    a[i], a[j] := a[j], a[i];
  }

  /** x is not earlier than y and z is later than x: z is not earlier than y. */
  lemma LaterThanAll(x: string, z: string, y: string)
    requires !StrLess(x, y) && StrLess(x, z)
    ensures !StrLess(z, y)
  {
    StrLessTotal(x, y);
    if StrLess(z, y) {
      StrLessTransitive(x, z, y);
    }
  }

  // ----- ISO calendar dates -----

  predicate IsDigit(c: char)
  {
    '0' <= c <= '9'
  }

  predicate AllDigits(s: string)
  {
    forall i :: 0 <= i < |s| ==> IsDigit(s[i])
  }

  function DigitValue(c: char): nat
    requires IsDigit(c)
  {
    c as int - '0' as int
  }

  /** The number a string of decimal digits denotes. */
  function DigitsValue(s: string): nat
    requires AllDigits(s)
    decreases |s|
  {
    if s == [] then 0
    else 10 * DigitsValue(s[..|s| - 1]) + DigitValue(s[|s| - 1])
  }

  /** A date written `YYYY-MM-DD`, as in the catalog. */
  predicate IsIsoDate(s: string)
  {
    && |s| == 10 && s[4] == '-' && s[7] == '-'
    && AllDigits(s[..4]) && AllDigits(s[5..7]) && AllDigits(s[8..])
  }

  function Year(s: string): nat
    requires IsIsoDate(s)
  {
    DigitsValue(s[..4])
  }

  function Month(s: string): nat
    requires IsIsoDate(s)
  {
    DigitsValue(s[5..7])
  }

  function Day(s: string): nat
    requires IsIsoDate(s)
  {
    DigitsValue(s[8..])
  }

  /** a is an earlier calendar day than b. */
  predicate ChronoLess(a: string, b: string)
    requires IsIsoDate(a) && IsIsoDate(b)
  {
    || Year(a) < Year(b)
    || (Year(a) == Year(b) && Month(a) < Month(b))
    || (Year(a) == Year(b) && Month(a) == Month(b) && Day(a) < Day(b))
  }

  /** Equal-length digit strings compare as the numbers they denote. */
  lemma {:induction false} DigitsOrder(a: string, b: string)
    requires AllDigits(a) && AllDigits(b) && |a| == |b|
    ensures StrLess(a, b) <==> DigitsValue(a) < DigitsValue(b)
    ensures a == b <==> DigitsValue(a) == DigitsValue(b)
    decreases |a|
  {
    if a != [] {
      var n := |a| - 1;
      assert a == a[..n] + [a[n]] && b == b[..n] + [b[n]];
      DigitsOrder(a[..n], b[..n]);
      StrLessConcat(a[..n], [a[n]], b[..n], [b[n]]);
      assert StrLess([a[n]], [b[n]]) <==> a[n] < b[n];
    }
  }

  /** Comparing two strings that are split at the same length: the heads
      decide, and the tails only when the heads are equal. */
  lemma {:induction false} StrLessConcat(x1: string, y1: string, x2: string, y2: string)
    requires |x1| == |x2|
    ensures StrLess(x1 + y1, x2 + y2) <==> StrLess(x1, x2) || (x1 == x2 && StrLess(y1, y2))
    decreases |x1|
  {
    if x1 == [] {
      assert x1 + y1 == y1 && x2 + y2 == y2;
    } else {
      assert (x1 + y1)[0] == x1[0] && (x2 + y2)[0] == x2[0];
      assert (x1 + y1)[1..] == x1[1..] + y1 && (x2 + y2)[1..] == x2[1..] + y2;
      StrLessConcat(x1[1..], y1, x2[1..], y2);
      if x1[0] == x2[0] && x1[1..] == x2[1..] {
        assert x1 == [x1[0]] + x1[1..] && x2 == [x2[0]] + x2[1..];
      }
    }
  }

  /** On ISO dates, string order is calendar order, so sorting by the date
      string sorts the posts newest first. */
  lemma IsoDateOrder(a: string, b: string)
    requires IsIsoDate(a) && IsIsoDate(b)
    ensures StrLess(a, b) <==> ChronoLess(a, b)
  {
    assert a == a[..4] + (a[4..7] + a[7..]);
    assert b == b[..4] + (b[4..7] + b[7..]);
    assert a[4..7] == [a[4]] + a[5..7] && b[4..7] == [b[4]] + b[5..7];
    assert a[7..] == [a[7]] + a[8..] && b[7..] == [b[7]] + b[8..];
    DigitsOrder(a[..4], b[..4]);
    DigitsOrder(a[5..7], b[5..7]);
    DigitsOrder(a[8..], b[8..]);
    StrLessIrreflexive("-");
    StrLessConcat(a[..4], a[4..7] + a[7..], b[..4], b[4..7] + b[7..]);
    StrLessConcat(a[4..7], a[7..], b[4..7], b[7..]);
    StrLessConcat([a[4]], a[5..7], [b[4]], b[5..7]);
    StrLessConcat([a[7]], a[8..], [b[7]], b[8..]);
  }

  /** A list of ISO-dated posts sorted by date string is in calendar order,
      newest first. */
  lemma DescendingIsChronological(s: seq<Post>)
    requires DescendingByDate(s)
    requires forall i :: 0 <= i < |s| ==> IsIsoDate(s[i].date)
    ensures forall i, j :: 0 <= i < j < |s| ==> !ChronoLess(s[i].date, s[j].date)
  {
    forall i, j | 0 <= i < j < |s|
      ensures !ChronoLess(s[i].date, s[j].date)
    {
      IsoDateOrder(s[i].date, s[j].date);
    }
  }
}
