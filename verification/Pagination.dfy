/** Splitting cards over sub-pages of one display page (internal/ui/render.go:343-365, 431-463, 566-611). */
module Pagination {
  import opened Arithmetic

  const ROW_BUDGET := 10

  // The parts of a quota card that decide how many lines it takes.
  datatype Card = Card(name: string, actionHint: string, monthTotalUsed: string, monthCodeUsed: string)

  datatype Line = MainLine | ActionLine | MonthLine(parts: seq<string>) | DetailLine

  function QuotaHeight(c: Card): (h: int)
    ensures 2 <= h <= 3
  {
    if c.actionHint != "" then 2
    else if c.monthTotalUsed != "" || c.monthCodeUsed != "" then 3
    else 2
  }

  // The lines of a card, which its height counts: what it is about comes first, a required action or
  // the detail comes last, and the usage of the month, where known, stands between.
  method QuotaLines(c: Card) returns (lines: seq<Line>)
    ensures |lines| == QuotaHeight(c) && lines[0] == MainLine
    ensures c.actionHint != "" ==> lines[1..] == [ActionLine]
    ensures c.actionHint == "" ==>
              var used := (if c.monthTotalUsed != "" then ["TOTAL " + c.monthTotalUsed] else [])
                          + (if c.monthCodeUsed != "" then ["CODE " + c.monthCodeUsed] else []);
              lines[1..] == (if used != [] then [MonthLine(used)] else []) + [DetailLine]
  {
    if c.actionHint != "" {
      return [MainLine, ActionLine];
    }
    lines := [MainLine];
    var monthly := [];
    if c.monthTotalUsed != "" {
      monthly := monthly + ["TOTAL " + c.monthTotalUsed];
    }
    if c.monthCodeUsed != "" {
      monthly := monthly + ["CODE " + c.monthCodeUsed];
    }
    assert monthly == (if c.monthTotalUsed != "" then ["TOTAL " + c.monthTotalUsed] else [])
                      + (if c.monthCodeUsed != "" then ["CODE " + c.monthCodeUsed] else []);
    if |monthly| > 0 {
      lines := lines + [MonthLine(monthly)];
    }
    assert lines[1..] == if monthly != [] then [MonthLine(monthly)] else [];
    lines := lines + [DetailLine];
    assert lines[1..] == lines[1..|lines| - 1] + [DetailLine];
  }

  function Heights(cards: seq<Card>): (h: seq<int>)
    ensures |h| == |cards| && forall i :: 0 <= i < |h| ==> h[i] == QuotaHeight(cards[i])
  {
    seq(|cards|, i requires 0 <= i < |cards| => QuotaHeight(cards[i]))
  }

  ghost predicate SmallHeights(h: seq<int>) {
    forall i :: 0 <= i < |h| ==> 0 < h[i] <= ROW_BUDGET
  }

  // The rows taken by cards i to j.
  function Rows(h: seq<int>, i: nat, j: nat): int
    requires i <= j <= |h|
    decreases j
  {
    if i == j then 0 else Rows(h, i, j - 1) + h[j - 1]
  }

  lemma {:induction false} RowsGrow(h: seq<int>, i: nat, i': nat, j': nat, j: nat)
    requires i <= i' <= j' <= j <= |h| && SmallHeights(h)
    ensures 0 <= Rows(h, i', j') <= Rows(h, i, j)
    decreases j
  {
    if j > j' {
      RowsGrow(h, i, i', j', j - 1);
    } else if i' < j' {
      RowsGrow(h, i, i', j' - 1, j - 1);
    } else if i < j {
      RowsGrow(h, i, j - 1, j - 1, j - 1);
    }
  }

  // ----- greedy packing -----

  // Where pages start among the first k cards, and the rows used on the last one.
  function Pack(h: seq<int>, k: nat): (r: (seq<nat>, int))
    requires k <= |h|
    ensures |r.0| >= 1
  {
    if k == 0 then ([0], 0)
    else
      var (starts, rows) := Pack(h, k - 1);
      if rows + h[k - 1] > ROW_BUDGET then (starts + [k - 1], h[k - 1]) else (starts, rows + h[k - 1])
  }

  // Where page p of a split of the first n items ends.
  function PageEnd(starts: seq<nat>, p: nat, n: nat): nat
    requires p < |starts|
  {
    if p + 1 < |starts| then starts[p + 1] else n
  }

  predicate InOrder(starts: seq<nat>, p: nat, n: nat) {
    p < |starts| && starts[p] <= PageEnd(starts, p, n) <= n
  }

  ghost predicate Ordered(starts: seq<nat>, n: nat) {
    |starts| >= 1 && starts[0] == 0 && forall p :: 0 <= p < |starts| ==> InOrder(starts, p, n)
  }

  ghost predicate Fits(h: seq<int>, starts: seq<nat>, p: nat, k: nat) {
    && k <= |h| && InOrder(starts, p, k)
    && Rows(h, starts[p], PageEnd(starts, p, k)) <= ROW_BUDGET
  }

  // A split of the first k cards into pages that are each within the row budget.
  ghost predicate IsSplit(h: seq<int>, starts: seq<nat>, k: nat) {
    Ordered(starts, k) && forall p :: 0 <= p < |starts| ==> Fits(h, starts, p, k)
  }

  // Page p had no room for the card that starts the next page.
  ghost predicate Full(h: seq<int>, starts: seq<nat>, p: nat) {
    p + 1 < |starts| && starts[p] < starts[p + 1] < |h| && Rows(h, starts[p], starts[p + 1] + 1) > ROW_BUDGET
  }

  ghost predicate IsTight(h: seq<int>, starts: seq<nat>) {
    forall p :: 0 <= p < |starts| - 1 ==> Full(h, starts, p)
  }

  // Appending a card either fills the last page further or opens a page.
  lemma PackStep(h: seq<int>, before: seq<nat>, k: nat)
    requires 0 < k <= |h| && SmallHeights(h) && IsSplit(h, before, k - 1) && IsTight(h, before)
    requires before[|before| - 1] <= k - 1
    ensures
      var rows := Rows(h, before[|before| - 1], k - 1);
      var starts := if rows + h[k - 1] > ROW_BUDGET then before + [k - 1] else before;
      IsSplit(h, starts, k) && IsTight(h, starts) && starts[|starts| - 1] < k
  {
    var last := |before| - 1;
    assert Fits(h, before, last, k - 1);
    var rows := Rows(h, before[last], k - 1);
    var starts := if rows + h[k - 1] > ROW_BUDGET then before + [k - 1] else before;
    assert Rows(h, before[last], k) == rows + h[k - 1];
    assert Rows(h, k - 1, k) == Rows(h, k - 1, k - 1) + h[k - 1];
    forall p | 0 <= p < |starts|
      ensures Fits(h, starts, p, k)
    {
      if p < last {
        assert Fits(h, before, p, k - 1);
      }
    }
    forall p | 0 <= p < |starts|
      ensures InOrder(starts, p, k)
    {
      assert Fits(h, starts, p, k);
    }
    forall p | 0 <= p < |starts| - 1
      ensures Full(h, starts, p)
    {
      if p < last {
        assert Full(h, before, p);
      }
    }
  }

  lemma {:induction false} PackSplits(h: seq<int>, k: nat)
    requires k <= |h| && SmallHeights(h)
    ensures
      var (starts, rows) := Pack(h, k);
      && IsSplit(h, starts, k) && IsTight(h, starts)
      && starts[|starts| - 1] <= k
      && rows == Rows(h, starts[|starts| - 1], k)
  {
    var (starts, rows) := Pack(h, k);
    if k == 0 {
      assert Fits(h, starts, 0, 0) && InOrder(starts, 0, 0);
    } else {
      PackSplits(h, k - 1);
      PackStep(h, Pack(h, k - 1).0, k);
      assert Rows(h, k - 1, k) == Rows(h, k - 1, k - 1) + h[k - 1];
    }
  }

  // Greedy packing is never behind any other split.
  lemma {:induction false} GreedyAhead(h: seq<int>, starts: seq<nat>, other: seq<nat>, p: nat)
    requires SmallHeights(h) && IsSplit(h, starts, |h|) && IsTight(h, starts) && IsSplit(h, other, |h|)
    requires p < |starts| && p < |other|
    ensures other[p] <= starts[p]
  {
    if p > 0 {
      GreedyAhead(h, starts, other, p - 1);
      assert Full(h, starts, p - 1) && Fits(h, other, p - 1, |h|);
      if other[p] > starts[p] {
        RowsGrow(h, other[p - 1], starts[p - 1], starts[p] + 1, other[p]);
      }
    }
  }

  // No contiguous split within the budget uses fewer pages.
  lemma PackIsMinimal(h: seq<int>, other: seq<nat>)
    requires SmallHeights(h) && IsSplit(h, other, |h|)
    ensures |Pack(h, |h|).0| <= |other|
  {
    var starts := Pack(h, |h|).0;
    PackSplits(h, |h|);
    if |other| < |starts| {
      var p := |other| - 1;
      GreedyAhead(h, starts, other, p);
      assert Full(h, starts, p) && Fits(h, other, p, |h|);
      RowsGrow(h, other[p], starts[p], starts[p + 1] + 1, |h|);
    }
  }

  // ----- pages of any split -----

  function PageItems<T>(items: seq<T>, starts: seq<nat>, p: nat): seq<T>
    requires InOrder(starts, p, |items|)
  {
    items[starts[p]..PageEnd(starts, p, |items|)]
  }

  function PagesFrom<T>(items: seq<T>, starts: seq<nat>, p: nat): seq<T>
    requires Ordered(starts, |items|) && p <= |starts|
    decreases |starts| - p
  {
    if p == |starts| then [] else PageItems(items, starts, p) + PagesFrom(items, starts, p + 1)
  }

  lemma {:induction false} PagesConcatenate<T>(items: seq<T>, starts: seq<nat>, p: nat)
    requires Ordered(starts, |items|) && p < |starts| && InOrder(starts, p, |items|)
    ensures PagesFrom(items, starts, p) == items[starts[p]..]
    decreases |starts| - p
  {
    if p + 1 < |starts| {
      assert InOrder(starts, p + 1, |items|);
      PagesConcatenate(items, starts, p + 1);
    }
  }

  // ----- which page is up -----

  const MIN_DWELL_SECONDS := 5
  const MAX_DWELL_SECONDS := 300

  function Bucket(unixSeconds: int, dwellSeconds: int): int {
    var dwell := if dwellSeconds < MIN_DWELL_SECONDS || dwellSeconds > MAX_DWELL_SECONDS then 15 else dwellSeconds;
    TruncDiv(unixSeconds, dwell)
  }

  function PageOfBucket(bucket: int, pages: nat): (p: nat)
    requires pages > 0
    ensures p < pages
  {
    TruncMod(TruncMod(bucket, pages) + pages, pages)
  }

  // The page at a time.
  function PageAt(unixSeconds: int, dwellSeconds: int, pages: nat): (p: nat)
    requires pages > 0
    ensures p < pages
  {
    PageOfBucket(Bucket(unixSeconds, dwellSeconds), pages)
  }

  lemma PageOfBucketIsModulo(bucket: int, pages: nat)
    requires pages > 0
    ensures PageOfBucket(bucket, pages) == bucket % pages
  {
    if bucket >= 0 {
      DivModUnique(bucket % pages + pages, 1, bucket % pages, pages);
    } else {
      var q, r := -bucket / pages, -bucket % pages;
      assert -bucket == q * pages + r;
      if r == 0 {
        DivModUnique(pages, 1, 0, pages);
        assert (-q) * pages == -(q * pages);
        DivModUnique(bucket, -q, 0, pages);
      } else {
        DivModUnique(pages - r, 0, pages - r, pages);
        assert (-q - 1) * pages == -(q * pages) - pages;
        DivModUnique(bucket, -q - 1, pages - r, pages);
      }
    }
  }

  // The schedule over seconds: page after page, each for a whole dwell, in a cycle that begins with
  // the first page at the epoch. A dwell outside 5 to 300 seconds counts as 15.
  lemma PageSchedule(t: int, d: int, k: int, pages: nat)
    requires pages > 0 && 5 <= d <= 300 && k >= 0 && k * d <= t < k * d + d
    ensures PageAt(t, d, pages) == k % pages
    ensures forall e :: !(5 <= e <= 300) ==> PageAt(t, e, pages) == PageAt(t, 15, pages)
  {
    MulOrder(0, k, d);
    DivModUnique(t, k, t - k * d, d);
    PageOfBucketIsModulo(k, pages);
  }

  // Before 1970 division rounds towards the epoch: the first page is up for the dwell before it and
  // the one after it, and going back from there the pages come in reverse.
  lemma PageScheduleBeforeEpoch(t: int, d: int, k: int, pages: nat)
    requires pages > 0 && 5 <= d <= 300 && k >= 0 && -(k * d) - d < t <= -(k * d)
    ensures PageAt(t, d, pages) == (-k) % pages
    ensures forall e :: !(5 <= e <= 300) ==> PageAt(t, e, pages) == PageAt(t, 15, pages)
  {
    MulOrder(0, k, d);
    DivModUnique(-t, k, -t - k * d, d);
    PageOfBucketIsModulo(-k, pages);
  }

  // One dwell later the next page is up, and after the last one the first.
  lemma NextPageAfterDwell(t: int, d: int, pages: nat)
    requires pages > 0 && 5 <= d <= 300 && t >= 0
    ensures PageAt(t + d, d, pages) == if PageAt(t, d, pages) + 1 < pages then PageAt(t, d, pages) + 1 else 0
  {
    var k := WholeDwells(t, d);
    PageSchedule(t, d, k, pages);
    PageSchedule(t + d, d, k + 1, pages);
    NextRemainder(k, pages);
  }

  lemma WholeDwells(t: int, d: int) returns (k: int)
    requires t >= 0 && d > 0
    ensures k >= 0 && k * d <= t < k * d + d && (k + 1) * d == k * d + d
  {
    k := t / d;
    assert t == k * d + t % d;
  }

  lemma NextRemainder(k: int, n: nat)
    requires n > 0
    ensures (k + 1) % n == if k % n + 1 < n then k % n + 1 else 0
  {
    if n > 1 {
      ModuloOfSum(k, 1, n);
    }
  }

  // The page shown i buckets from now.
  function PageAfter(bucket: int, i: int, pages: nat): nat
    requires pages > 0
  {
    PageOfBucket(bucket + i, pages)
  }

  lemma PageAfterRotates(bucket: int, i: int, pages: nat)
    requires 0 <= i < pages
    ensures
      var first := PageAfter(bucket, 0, pages);
      PageAfter(bucket, i, pages) == if first + i < pages then first + i else first + i - pages
  {
    PageOfBucketIsModulo(bucket, pages);
    PageOfBucketIsModulo(bucket + i, pages);
    ModuloOfSum(bucket, i, pages);
  }

  // Any run of as many consecutive buckets as there are pages shows every page exactly once.
  lemma EveryPageOnce(bucket: int, pages: nat, p: nat)
    requires p < pages
    ensures exists i :: 0 <= i < pages && PageAfter(bucket, i, pages) == p
    ensures forall i, j ::
              0 <= i < pages && 0 <= j < pages && PageAfter(bucket, i, pages) == PageAfter(bucket, j, pages)
              ==> i == j
  {
    var first := PageAfter(bucket, 0, pages);
    forall i | 0 <= i < pages
      ensures PageAfter(bucket, i, pages) == if first + i < pages then first + i else first + i - pages
    {
      PageAfterRotates(bucket, i, pages);
    }
    var i := if p >= first then p - first else p - first + pages;
    assert PageAfter(bucket, i, pages) == p;
  }

  // ----- codingWindow -----

  function CodingStarts(cards: seq<Card>): (starts: seq<nat>)
    ensures |starts| >= 1
  {
    Pack(Heights(cards), |cards|).0
  }

  lemma CodingStartsSplit(cards: seq<Card>)
    ensures IsSplit(Heights(cards), CodingStarts(cards), |cards|)
  {
    PackSplits(Heights(cards), |cards|);
  }

  method PackCards(cards: seq<Card>) returns (starts: seq<nat>)
    ensures starts == CodingStarts(cards)
  {
    ghost var h := Heights(cards);
    starts := [0];
    var rows := 0;
    for i := 0 to |cards|
      invariant (starts, rows) == Pack(h, i)
    {
      var lines := QuotaLines(cards[i]);
      var height := |lines|;
      if rows + height > ROW_BUDGET {
        starts := starts + [i];
        rows := 0;
      }
      rows := rows + height;
    }
  }

  method CodingWindow(cards: seq<Card>, unixSeconds: int, dwellSeconds: int)
    returns (shown: seq<Card>, page: nat, pages: nat)
    ensures pages == |CodingStarts(cards)|
    ensures page == PageAt(unixSeconds, dwellSeconds, pages) + 1
    ensures InOrder(CodingStarts(cards), page - 1, |cards|)
    ensures shown == PageItems(cards, CodingStarts(cards), page - 1)
    ensures Rows(Heights(shown), 0, |shown|) <= ROW_BUDGET
  {
    var starts := PackCards(cards);
    pages := |starts|;
    var index := PageAt(unixSeconds, dwellSeconds, pages);
    PageInOrder(cards, index);
    PageWithinBudget(cards, index);
    var end := |cards|;
    if index + 1 < pages {
      end := starts[index + 1];
    }
    shown, page := cards[starts[index]..end], index + 1;
  }

  lemma PageInOrder(cards: seq<Card>, p: nat)
    requires p < |CodingStarts(cards)|
    ensures InOrder(CodingStarts(cards), p, |cards|)
  {
    CodingStartsSplit(cards);
  }

  lemma PageWithinBudget(cards: seq<Card>, p: nat)
    requires InOrder(CodingStarts(cards), p, |cards|)
    ensures
      var items := PageItems(cards, CodingStarts(cards), p);
      Rows(Heights(items), 0, |items|) <= ROW_BUDGET
  {
    var starts := CodingStarts(cards);
    assert Fits(Heights(cards), starts, p, |cards|) by {
      CodingStartsSplit(cards);
    }
    RowsOfSlice(cards, starts[p], PageEnd(starts, p, |cards|));
  }

  lemma RowsOfSlice(cards: seq<Card>, i: nat, j: nat)
    requires i <= j <= |cards|
    ensures Rows(Heights(cards[i..j]), 0, j - i) == Rows(Heights(cards), i, j)
  {
    RowsOfPrefix(cards, i, j, j - i);
  }

  lemma {:induction false} RowsOfPrefix(cards: seq<Card>, i: nat, j: nat, k: nat)
    requires i + k <= j <= |cards|
    ensures Rows(Heights(cards[i..j]), 0, k) == Rows(Heights(cards), i, i + k)
  {
    if k > 0 {
      RowsOfPrefix(cards, i, j, k - 1);
    }
  }

  // What CodingWindow shows over its pages is every card once, in order, on the fewest pages.
  lemma CodingPages(cards: seq<Card>)
    ensures Ordered(CodingStarts(cards), |cards|)
    ensures PagesFrom(cards, CodingStarts(cards), 0) == cards
    ensures forall other :: IsSplit(Heights(cards), other, |cards|) ==> |CodingStarts(cards)| <= |other|
  {
    CodingStartsSplit(cards);
    PagesConcatenate(cards, CodingStarts(cards), 0);
    forall other | IsSplit(Heights(cards), other, |cards|)
      ensures |CodingStarts(cards)| <= |other|
    {
      PackIsMinimal(Heights(cards), other);
    }
  }

  // ----- nodeWindow and serviceWindow -----

  function Keep<T>(items: seq<T>, wanted: T -> bool): seq<T> {
    if items == [] then []
    else (if wanted(items[0]) then [items[0]] else []) + Keep(items[1..], wanted)
  }

  // The stable sort that puts critical items first.
  function CriticalFirst<T>(items: seq<T>, critical: T -> bool): seq<T> {
    Keep(items, critical) + Keep(items, x => !critical(x))
  }

  function PageCount(n: nat, size: nat): (pages: nat)
    requires n > 0 && size > 0
  {
    (n + size - 1) / size
  }

  lemma PageCountBounds(n: nat, size: nat)
    requires n > 0 && size > 0
    ensures
      var pages := PageCount(n, size);
      pages >= 1 && n <= pages * size < n + size
  {
    var pages, r := PageCount(n, size), (n + size - 1) % size;
    assert n + size - 1 == pages * size + r;
    MulOrder(0, pages, size);
  }

  function FixedStarts(n: nat, size: nat): (starts: seq<nat>)
    requires n > 0 && size > 0
    ensures |starts| == PageCount(n, size)
    ensures forall p :: 0 <= p < |starts| ==> starts[p] == p * size
  {
    seq(PageCount(n, size), p requires 0 <= p => p * size)
  }

  // Page p of fixed size starts inside the items and ends `size` later, or with the items.
  lemma FixedPage(n: nat, size: nat, p: nat)
    requires n > 0 && size > 0 && p < PageCount(n, size)
    ensures
      var starts := FixedStarts(n, size);
      && InOrder(starts, p, n) && starts[p] == p * size < n
      && PageEnd(starts, p, n) == if p * size + size < n then p * size + size else n
  {
    var pages, starts := PageCount(n, size), FixedStarts(n, size);
    PageCountBounds(n, size);
    NextMultiple(pages, p, size);
    assert (p + 1) * size == p * size + size;
    if p + 1 < pages {
      NextMultiple(pages, p + 1, size);
    } else {
      assert p * size + size == pages * size;
    }
  }

  lemma FixedStartsOrdered(n: nat, size: nat)
    requires n > 0 && size > 0
    ensures Ordered(FixedStarts(n, size), n)
  {
    PageCountBounds(n, size);
    assert FixedStarts(n, size)[0] == 0 * size;
    forall p | 0 <= p < PageCount(n, size)
      ensures InOrder(FixedStarts(n, size), p, n)
    {
      FixedPage(n, size, p);
    }
  }

  method Window<T>(items: seq<T>, size: nat, unixSeconds: int, dwellSeconds: int, critical: T -> bool)
    returns (shown: seq<T>, page: nat, pages: nat)
    requires size > 0
    ensures items == [] ==> shown == [] && page == 1 && pages == 1
    ensures items != [] ==>
              && pages == PageCount(|items|, size) >= 1
              && page == (if critical(items[0]) then 1 else PageAt(unixSeconds, dwellSeconds, pages) + 1)
              && InOrder(FixedStarts(|items|, size), page - 1, |items|)
              && shown == PageItems(items, FixedStarts(|items|, size), page - 1)
  {
    if items == [] {
      return [], 1, 1;
    }
    PageCountBounds(|items|, size);
    pages := (|items| + size - 1) / size;
    var index := 0;
    if pages > 1 && !critical(items[0]) {
      index := PageAt(unixSeconds, dwellSeconds, pages);
    }
    FixedPage(|items|, size, index);
    var start := index * size;
    var end := if start + size < |items| then start + size else |items|;
    shown, page := items[start..end], index + 1;
  }

  lemma {:induction false} KeepAllOrNone<T>(items: seq<T>, wanted: T -> bool)
    ensures (forall x <- items :: wanted(x)) ==> Keep(items, wanted) == items
    ensures (forall x <- items :: !wanted(x)) ==> Keep(items, wanted) == []
    ensures forall x <- Keep(items, wanted) :: x in items && wanted(x)
    ensures forall x <- items :: wanted(x) ==> x in Keep(items, wanted)
  {
    if items != [] {
      KeepAllOrNone(items[1..], wanted);
      assert items == [items[0]] + items[1..];
    }
  }

  // While nothing is critical every item takes its turn in order.
  lemma CalmWindow<T>(items: seq<T>, critical: T -> bool, size: nat)
    requires items != [] && size > 0 && forall x <- items :: !critical(x)
    ensures CriticalFirst(items, critical) == items && !critical(CriticalFirst(items, critical)[0])
    ensures Ordered(FixedStarts(|items|, size), |items|)
    ensures PagesFrom(items, FixedStarts(|items|, size), 0) == items
  {
    KeepAllOrNone(items, critical);
    KeepAllOrNone(items, x => !critical(x));
    FixedStartsOrdered(|items|, size);
    PagesConcatenate(items, FixedStarts(|items|, size), 0);
  }

  // Otherwise the first page stays up, and it holds the critical items, all of them if they fit.
  lemma AlarmWindow<T>(items: seq<T>, critical: T -> bool, size: nat)
    requires size > 0 && exists x <- items :: critical(x)
    ensures
      var sorted := CriticalFirst(items, critical);
      && multiset(sorted) == multiset(items) && sorted != [] && critical(sorted[0])
      && (|Keep(items, critical)| <= size ==>
            forall x <- items :: critical(x) ==> x in sorted[..if size < |sorted| then size else |sorted|])
  {
    var crit, rest := Keep(items, critical), Keep(items, x => !critical(x));
    KeepAllOrNone(items, critical);
    KeepPartitions(items, critical);
    assert crit != [];
    if |crit| <= size {
      PrefixHolds(crit, rest, if size < |crit + rest| then size else |crit + rest|);
    }
  }

  lemma PrefixHolds<T>(a: seq<T>, b: seq<T>, cut: nat)
    requires |a| <= cut <= |a + b|
    ensures forall x <- a :: x in (a + b)[..cut]
  {
    assert (a + b)[..cut] == a + b[..cut - |a|];
  }

  lemma {:induction false} KeepPartitions<T>(items: seq<T>, wanted: T -> bool)
    ensures multiset(Keep(items, wanted)) + multiset(Keep(items, x => !wanted(x))) == multiset(items)
  {
    if items != [] {
      KeepPartitions(items[1..], wanted);
      assert items == [items[0]] + items[1..];
    }
  }
}
