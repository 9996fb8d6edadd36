/** Cursor pagination: paginate and paginateTuples, and whole walks through
    their pages. A cursor is the last key of the previous page, "" at the start
    and after the last page (base64 maps "" to "" and is inverted on reading). */
module Pagination {
  import opened Order

  /** parseLimit yields at least 1. */
  type Limit = n: nat | n >= 1 witness 1

  /** The window of one page and the next cursor. */
  datatype Page = Page(lo: nat, hi: nat, next: string)

  function Start(keys: seq<string>, cursor: string): (lo: nat)
    ensures lo <= |keys|
  {
    if cursor == "" then 0
    else
      var r := Rank(keys, cursor);
      if r < |keys| && keys[r] == cursor then r + 1 else r
  }

  function PageOf(keys: seq<string>, cursor: string, limit: Limit): (p: Page)
    ensures p.lo <= p.hi <= |keys|
  {
    var lo := Start(keys, cursor);
    var hi := if lo + limit < |keys| then lo + limit else |keys|;
    Page(lo, hi, if hi < |keys| then keys[hi - 1] else "")
  }

  method Paginate(sorted: seq<string>, cursor: string, limit: Limit) returns (page: seq<string>, next: string)
    requires Sorted(sorted)
    ensures var p := PageOf(sorted, cursor, limit); page == sorted[p.lo..p.hi] && next == p.next
  {
    page, next := PaginateBy(sorted, s => s, cursor, limit);
    assert Keys(sorted, s => s) == sorted;
  }

  /** paginateTuples, for rows that carry their key in a field. */
  method PaginateBy<T>(rows: seq<T>, key: T -> string, cursor: string, limit: Limit)
    returns (page: seq<T>, next: string)
    requires Sorted(Keys(rows, key))
    ensures var p := PageOf(Keys(rows, key), cursor, limit); page == rows[p.lo..p.hi] && next == p.next
  {
    hide LE, Rank;
    var start := 0;
    if cursor != "" {
      start := SearchStrings(Keys(rows, key), cursor);
      if start < |rows| && key(rows[start]) == cursor { start := start + 1; }
    }
    if start >= |rows| {
      return [], "";
    }
    var end := if start + limit < |rows| then start + limit else |rows|;
    page := rows[start..end];
    next := if end < |rows| && |page| > 0 then key(page[|page| - 1]) else "";
  }

  // ----- A walk over changing lists -----------------------------------------------

  predicate Served(keys: seq<string>) {
    StrictlySorted(keys) && "" !in keys
  }

  /** The items a client collects that reads one page from each of these lists in turn. */
  function Collected(lists: seq<seq<string>>, limits: seq<Limit>, cursor: string): seq<string>
    requires |lists| == |limits|
  {
    if lists == [] then []
    else
      var p := PageOf(lists[0], cursor, limits[0]);
      lists[0][p.lo..p.hi] + Collected(lists[1..], limits[1..], p.next)
  }

  /** The client stops at the first empty cursor, and these lists are exactly the ones it saw. */
  predicate WholeWalk(lists: seq<seq<string>>, limits: seq<Limit>, cursor: string)
    requires |lists| == |limits|
  {
    lists != [] &&
    var p := PageOf(lists[0], cursor, limits[0]);
    if p.next == "" then |lists| == 1 else WholeWalk(lists[1..], limits[1..], p.next)
  }

  predicate Above(x: string, cursor: string) {
    cursor == "" || (LE(cursor, x) && x != cursor)
  }

  /** A page holds keys above its cursor, all of them up to the next cursor. */
  lemma PageIs(keys: seq<string>, cursor: string, limit: Limit)
    requires Served(keys)
    ensures var p := PageOf(keys, cursor, limit);
      && (forall x :: x in keys[p.lo..p.hi] <==> x in keys && Above(x, cursor) && (p.next == "" || LE(x, p.next)))
      && (p.next != "" ==> p.next in keys && Above(p.next, cursor))
      && (p.next == "" <==> p.hi == |keys|)
  {
    var p := PageOf(keys, cursor, limit);
    RankIs(keys, cursor);
    forall k | 0 <= k < |keys| ensures p.lo <= k <==> Above(keys[k], cursor) {
      AtStart(keys, cursor, k);
    }
    forall k | 0 <= k < |keys| ensures k < p.hi <==> (p.next == "" || LE(keys[k], p.next)) {
      if p.hi < |keys| {
        assert keys[p.hi - 1] in keys;
        LERefl(p.next);
        if k >= p.hi && LE(keys[k], p.next) { LEAntisym(keys[k], p.next); }
      }
    }
    forall x ensures x in keys[p.lo..p.hi] <==> x in keys && Above(x, cursor) && (p.next == "" || LE(x, p.next)) {
      if x in keys {
        var k :| 0 <= k < |keys| && keys[k] == x;
        if p.lo <= k < p.hi { assert keys[p.lo..p.hi][k - p.lo] == x; }
      }
    }
  }

  lemma AtStart(keys: seq<string>, cursor: string, k: nat)
    requires Served(keys) && k < |keys|
    ensures Start(keys, cursor) <= k <==> Above(keys[k], cursor)
  {
    if cursor != "" {
      RankIs(keys, cursor);
      var r := Rank(keys, cursor);
      LERefl(cursor);
      if k != r && keys[k] == cursor && r < |keys| {
        LETotal(keys[r], cursor);
        assert r < k;
        LEAntisym(keys[r], cursor);
      }
    }
  }

  lemma AboveTrans(x: string, y: string, cursor: string)
    requires Above(y, cursor) && LE(y, x) && y != ""
    ensures Above(x, cursor)
  {
    if cursor != "" {
      LETrans(cursor, y, x);
      if x == cursor { LEAntisym(y, x); }
    }
  }

  /** A page up to its next cursor, and what is read above that cursor. */
  lemma PageThenRest(page: seq<string>, rest: seq<string>, cursor: string, next: string)
    requires StrictlySorted(page) && StrictlySorted(rest) && next != "" && Above(next, cursor)
    requires forall x :: x in page ==> Above(x, cursor) && LE(x, next)
    requires forall y :: y in rest ==> Above(y, next)
    ensures StrictlySorted(page + rest) && forall x :: x in page + rest ==> Above(x, cursor)
  {
    hide LE, StrictlySorted;
    forall x, y | x in page && y in rest ensures LE(x, y) && x != y {
      LETrans(x, next, y);
      if x == y { LEAntisym(next, x); }
    }
    forall y | y in rest ensures Above(y, cursor) { AboveTrans(y, next, cursor); }
    Concat(page, rest);
  }

  lemma {:induction false} WalkIsIncreasing(lists: seq<seq<string>>, limits: seq<Limit>, cursor: string)
    requires |lists| == |limits| && forall l :: l in lists ==> Served(l)
    requires WholeWalk(lists, limits, cursor)
    ensures StrictlySorted(Collected(lists, limits, cursor))
    ensures forall x :: x in Collected(lists, limits, cursor) ==> Above(x, cursor)
  {
    assert lists[0] in lists;
    var p := PageOf(lists[0], cursor, limits[0]);
    var page := lists[0][p.lo..p.hi];
    PageIs(lists[0], cursor, limits[0]);
    assert StrictlySorted(page);
    hide LE, Start, StrictlySorted, Above;
    if p.next == "" {
      assert Collected(lists, limits, cursor) == page + Collected([], [], "") == page;
    } else {
      assert forall l :: l in lists[1..] ==> l in lists;
      WalkIsIncreasing(lists[1..], limits[1..], p.next);
      PageThenRest(page, Collected(lists[1..], limits[1..], p.next), cursor, p.next);
    }
  }

  lemma {:induction false} WalkMissesNothing(lists: seq<seq<string>>, limits: seq<Limit>, cursor: string, x: string)
    requires |lists| == |limits| && forall l :: l in lists ==> Served(l) && x in l
    requires WholeWalk(lists, limits, cursor) && Above(x, cursor)
    ensures x in Collected(lists, limits, cursor)
  {
    assert lists[0] in lists;
    var p := PageOf(lists[0], cursor, limits[0]);
    PageIs(lists[0], cursor, limits[0]);
    if x !in lists[0][p.lo..p.hi] {
      LETotal(x, p.next);
      assert forall l :: l in lists[1..] ==> l in lists;
      WalkMissesNothing(lists[1..], limits[1..], p.next, x);
    }
  }

  lemma Concat(page: seq<string>, rest: seq<string>)
    requires StrictlySorted(page) && StrictlySorted(rest)
    requires forall x, y :: x in page && y in rest ==> LE(x, y) && x != y
    ensures StrictlySorted(page + rest)
  {
    var all := page + rest;
    forall i, j | 0 <= i < j < |all| ensures LE(all[i], all[j]) && all[i] != all[j] {
      if i < |page| <= j { assert page[i] in page && rest[j - |page|] in rest; }
    }
  }

  /** Pages may come from different snapshots: nothing is returned twice, and
      what every snapshot held is returned exactly once. */
  lemma PaginationSurvivesSwaps(lists: seq<seq<string>>, limits: seq<Limit>)
    requires |lists| == |limits| && forall l :: l in lists ==> Served(l)
    requires WholeWalk(lists, limits, "")
    ensures StrictlySorted(Collected(lists, limits, ""))
    ensures forall x :: (forall l :: l in lists ==> x in l) ==>
      multiset(Collected(lists, limits, ""))[x] == 1
  {
    WalkIsIncreasing(lists, limits, "");
    var c := Collected(lists, limits, "");
    forall x | forall l :: l in lists ==> x in l ensures multiset(c)[x] == 1 {
      WalkMissesNothing(lists, limits, "", x);
      StrictCount(c, x);
    }
  }

  lemma {:induction false} StrictCount(c: seq<string>, x: string)
    requires StrictlySorted(c) && x in c
    ensures multiset(c)[x] == 1
  {
    assert c == [c[0]] + c[1..];
    if c[0] != x {
      StrictCount(c[1..], x);
    } else {
      assert x !in c[1..];
    }
  }

  // ----- A walk over one list -------------------------------------------------------

  /** The pages of an unchanging list, as long as each resumes where the last one ended. */
  function PagesFrom(keys: seq<string>, cursor: string, limit: Limit): seq<Page>
    requires Served(keys)
    decreases |keys| - Start(keys, cursor)
  {
    var p := PageOf(keys, cursor, limit);
    if p.next == "" then [p]
    else
      Resumes(keys, cursor, limit);
      [p] + PagesFrom(keys, p.next, limit)
  }

  lemma Resumes(keys: seq<string>, cursor: string, limit: Limit)
    requires Served(keys) && PageOf(keys, cursor, limit).next != ""
    ensures Start(keys, PageOf(keys, cursor, limit).next) == PageOf(keys, cursor, limit).hi
    ensures PageOf(keys, cursor, limit).hi == Start(keys, cursor) + limit < |keys|
  {
    var p := PageOf(keys, cursor, limit);
    assert p.hi < |keys|;
    AtStart(keys, p.next, p.hi - 1);
    AtStart(keys, p.next, p.hi);
    assert LE(p.next, keys[p.hi]);
  }

  /** The number of pages left, at least one. */
  function Pages(n: nat, limit: Limit): nat
  {
    if n <= limit then 1 else 1 + Pages(n - limit, limit)
  }

  /** Pages(n, limit) is max(1, ceil(n / limit)). */
  lemma {:induction false} PagesIsCeiling(n: nat, limit: Limit)
    ensures var k := Pages(n, limit); n <= k * limit && (k == 1 || (k - 1) * limit < n)
  {
    if n > limit {
      PagesIsCeiling(n - limit, limit);
      var k := Pages(n - limit, limit);
      assert (k + 1) * limit == k * limit + limit && k * limit == (k - 1) * limit + limit;
    }
  }

  /** Following cursors through one list covers it in consecutive pages, in
      max(1, ceil(n / limit)) of them. */
  lemma {:induction false} FixedWalk(keys: seq<string>, cursor: string, limit: Limit)
    requires Served(keys)
    ensures var ps := PagesFrom(keys, cursor, limit);
      && |ps| == Pages(|keys| - Start(keys, cursor), limit)
      && ps[0].lo == Start(keys, cursor) && ps[|ps| - 1].hi == |keys|
      && forall i :: 0 < i < |ps| ==> ps[i].lo == ps[i - 1].hi
    decreases |keys| - Start(keys, cursor)
  {
    var p := PageOf(keys, cursor, limit);
    PageIs(keys, cursor, limit);
    if p.next != "" {
      Resumes(keys, cursor, limit);
      var rest := PagesFrom(keys, p.next, limit);
      assert PagesFrom(keys, cursor, limit) == [p] + rest;
      hide Start, LE, Served, PagesFrom;
      FixedWalk(keys, p.next, limit);
    }
  }

  // ----- Rows with equal keys ---------------------------------------------------------

  /** With repeated keys (two owners of one target Service) a page resumes at
      the end of the previous one exactly when its last row's key does not also
      end the row before. */
  lemma ResumesIff(keys: seq<string>, cursor: string, limit: Limit)
    requires Sorted(keys) && "" !in keys
    requires PageOf(keys, cursor, limit).next != ""
    ensures var p := PageOf(keys, cursor, limit);
      Start(keys, p.next) == p.hi <==> p.hi == 1 || keys[p.hi - 2] != keys[p.hi - 1]
  {
    var p := PageOf(keys, cursor, limit);
    var r := Rank(keys, p.next);
    RankIs(keys, p.next);
    LERefl(p.next);
    assert r <= p.hi - 1;
    LEAntisym(keys[r], keys[p.hi - 1]);
    if p.hi >= 2 && keys[p.hi - 2] != keys[p.hi - 1] && LE(p.next, keys[p.hi - 2]) {
      LEAntisym(keys[p.hi - 2], p.next);
    }
  }

  /** The page after k cursor steps. */
  function PageNo(keys: seq<string>, limit: Limit, k: nat): Page {
    PageOf(keys, if k == 0 then "" else PageNo(keys, limit, k - 1).next, limit)
  }

  predicate InPlace(keys: seq<string>, limit: Limit, k: nat) {
    PageNo(keys, limit, k).lo == k * limit
  }

  /** The last row before page k has another key than the row before it. */
  predicate CleanCut(keys: seq<string>, limit: Limit, k: nat) {
    2 <= k * limit < |keys| ==> keys[k * limit - 2] != keys[k * limit - 1]
  }

  lemma MulLess(k: nat, m: nat, limit: Limit)
    requires k <= m
    ensures k * limit <= m * limit
  {
  }

  lemma CutInRange(n: nat, limit: Limit, k: nat)
    requires 0 < k < Pages(n, limit)
    ensures k * limit < n && k * limit == (k - 1) * limit + limit
  {
    PagesIsCeiling(n, limit);
    MulLess(k, Pages(n, limit) - 1, limit);
  }

  lemma NextCut(keys: seq<string>, limit: Limit, k: nat)
    requires Sorted(keys) && "" !in keys && 0 < k < Pages(|keys|, limit)
    requires InPlace(keys, limit, k - 1)
    ensures InPlace(keys, limit, k) <==> CleanCut(keys, limit, k)
  {
    CutInRange(|keys|, limit, k);
    ResumesAt(keys, if k == 1 then "" else PageNo(keys, limit, k - 2).next, limit, k * limit);
  }

  lemma ResumesAt(keys: seq<string>, cursor: string, limit: Limit, e: nat)
    requires Sorted(keys) && "" !in keys
    requires PageOf(keys, cursor, limit).lo + limit == e < |keys|
    ensures PageOf(keys, PageOf(keys, cursor, limit).next, limit).lo == e <==> e < 2 || keys[e - 2] != keys[e - 1]
  {
    assert keys[e - 1] in keys;
    ResumesIff(keys, cursor, limit);
  }

  /** Repeated keys allowed: following cursors walks through consecutive pages
      exactly when every page boundary is a clean cut. */
  lemma TuplePagesTile(keys: seq<string>, limit: Limit)
    requires Sorted(keys) && "" !in keys
    ensures (forall k :: 0 <= k < Pages(|keys|, limit) ==> InPlace(keys, limit, k)) <==>
      (forall k :: 0 < k < Pages(|keys|, limit) ==> CleanCut(keys, limit, k))
  {
    if forall k :: 0 < k < Pages(|keys|, limit) ==> CleanCut(keys, limit, k) {
      forall k | 0 <= k < Pages(|keys|, limit) ensures InPlace(keys, limit, k) { CutsTile(keys, limit, k); }
    }
    if forall k :: 0 <= k < Pages(|keys|, limit) ==> InPlace(keys, limit, k) {
      forall k | 0 < k < Pages(|keys|, limit) ensures CleanCut(keys, limit, k) { NextCut(keys, limit, k); }
    }
  }

  lemma {:induction false} CutsTile(keys: seq<string>, limit: Limit, k: nat)
    requires Sorted(keys) && "" !in keys && k < Pages(|keys|, limit)
    requires forall j :: 0 < j < Pages(|keys|, limit) ==> CleanCut(keys, limit, j)
    ensures InPlace(keys, limit, k)
  {
    if k > 0 {
      CutsTile(keys, limit, k - 1);
      NextCut(keys, limit, k);
    }
  }

  // ----- When the walk ends -------------------------------------------------------------

  /** limit + 1 rows from i on have one key, and another row follows. */
  predicate CrowdedAt(keys: seq<string>, limit: Limit, i: nat) {
    i + limit + 1 < |keys| && keys[i] == keys[i + limit]
  }

  predicate Crowded(keys: seq<string>, limit: Limit) {
    exists i :: 0 <= i < |keys| && CrowdedAt(keys, limit, i)
  }

  /** Following cursors, a client some time reads the last page. */
  ghost predicate Ends(keys: seq<string>, limit: Limit) {
    exists k: nat :: PageNo(keys, limit, k).next == ""
  }

  lemma Between(keys: seq<string>, i: nat, j: nat, k: nat)
    requires Sorted(keys) && i <= j <= k < |keys| && keys[i] == keys[k]
    ensures keys[j] == keys[i]
  {
    if i < j < k { LEAntisym(keys[i], keys[j]); }
  }

  lemma FirstRank(keys: seq<string>, i: nat)
    requires Sorted(keys) && i < |keys|
    ensures var r := Rank(keys, keys[i]); r <= i && keys[r] == keys[i]
  {
    RankIs(keys, keys[i]);
    LERefl(keys[i]);
    var r := Rank(keys, keys[i]);
    if r < i { LEAntisym(keys[r], keys[i]); }
  }

  /** The walk has not got past the crowded key. */
  predicate Before(keys: seq<string>, cursor: string, i: nat)
    requires i < |keys|
  {
    cursor == keys[i] || Start(keys, cursor) <= Rank(keys, keys[i])
  }

  lemma NeverPast(keys: seq<string>, limit: Limit, cursor: string, i: nat)
    requires Sorted(keys) && "" !in keys && CrowdedAt(keys, limit, i) && Before(keys, cursor, i)
    ensures PageOf(keys, cursor, limit).next != "" && Before(keys, PageOf(keys, cursor, limit).next, i)
  {
    hide LE;
    var p, r := PageOf(keys, cursor, limit), Rank(keys, keys[i]);
    FirstRank(keys, i);
    assert p.lo <= r + 1 && p.hi == p.lo + limit && p.hi < |keys|;
    var e := p.hi - 1;
    assert p.next == keys[e] && keys[e] in keys;
    if e >= r {
      Between(keys, r, e, i + limit);
    } else {
      FirstRank(keys, e);
    }
  }

  lemma {:induction false} CrowdedGoesOn(keys: seq<string>, limit: Limit, i: nat, k: nat)
    requires Sorted(keys) && "" !in keys && CrowdedAt(keys, limit, i)
    ensures PageNo(keys, limit, k).next != "" && Before(keys, PageNo(keys, limit, k).next, i)
  {
    if k > 0 { CrowdedGoesOn(keys, limit, i, k - 1); }
    NeverPast(keys, limit, if k == 0 then "" else PageNo(keys, limit, k - 1).next, i);
  }

  lemma MovesOn(keys: seq<string>, limit: Limit, cursor: string)
    requires Sorted(keys) && "" !in keys && !Crowded(keys, limit)
    requires PageOf(keys, cursor, limit).next != ""
    ensures Start(keys, PageOf(keys, cursor, limit).next) > Start(keys, cursor)
  {
    hide LE;
    var p := PageOf(keys, cursor, limit);
    var e := p.hi - 1;
    assert p.next == keys[e];
    FirstRank(keys, e);
    var q := Rank(keys, p.next);
    assert !CrowdedAt(keys, limit, q);
    if q + 1 <= p.lo { Between(keys, q, q + limit, e); }
  }

  lemma {:induction false} GetsFurther(keys: seq<string>, limit: Limit, k: nat)
    requires Sorted(keys) && "" !in keys && !Crowded(keys, limit)
    ensures Ends(keys, limit) || Start(keys, PageNo(keys, limit, k).next) > k
  {
    hide Crowded, Start, PageOf;
    if k > 0 { GetsFurther(keys, limit, k - 1); }
    if PageNo(keys, limit, k).next != "" {
      MovesOn(keys, limit, if k == 0 then "" else PageNo(keys, limit, k - 1).next);
    }
  }

  /** A walk through rows with repeated keys comes to its last page exactly when
      no key fills more than a page in front of another row; otherwise the last
      row is never returned, however many cursors the client follows. */
  lemma WalkEndsIff(keys: seq<string>, limit: Limit)
    requires Sorted(keys) && "" !in keys
    ensures Ends(keys, limit) <==> !Crowded(keys, limit)
    ensures !Ends(keys, limit) ==> forall k: nat :: PageNo(keys, limit, k).hi < |keys|
  {
    if !Crowded(keys, limit) {
      GetsFurther(keys, limit, |keys|);
    } else {
      var i :| 0 <= i < |keys| && CrowdedAt(keys, limit, i);
      forall k: nat ensures PageNo(keys, limit, k).next != "" { CrowdedGoesOn(keys, limit, i, k); }
    }
  }

  /** From the first repeated cursor on the client gets one and the same page. */
  lemma {:induction false} StuckForGood(keys: seq<string>, limit: Limit, k: nat, j: nat)
    requires PageNo(keys, limit, k + 1).next == PageNo(keys, limit, k).next && k < j
    ensures PageNo(keys, limit, j) == PageNo(keys, limit, k + 1)
  {
    hide PageOf;
    if j > k + 1 { StuckForGood(keys, limit, k, j - 1); }
  }

  /** The smallest case: two rows with one key and page size 1. The second row
      comes back forever and the last one never. */
  lemma DuplicateRowsLoop(a: string, b: string, k: nat)
    requires a != "" && LE(a, b) && a != b
    ensures PageNo([a, a, b], 1, k) == if k == 0 then Page(0, 1, a) else Page(1, 2, a)
    ensures !Ends([a, a, b], 1)
  {
    var keys := [a, a, b];
    LERefl(a);
    assert Rank(keys, a) == 0;
    if k > 1 { StuckForGood(keys, 1, 0, k); }
    assert PageNo(keys, 1, 1) == Page(1, 2, a);
    assert CrowdedAt(keys, 1, 0);
    WalkEndsIff(keys, 1);
  }
}
