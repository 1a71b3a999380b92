/**
 Pages of increasing keys. A page holds the first keys after a position and says whether more follow;
 the next page starts after its last key, on whatever the list is by then.
 */
module Paging {
  import opened Common
  import opened Text
  import opened Order

  /** The keys after a position; without a position, all of them. */
  function After(keys: seq<Bytes>, position: Option<Bytes>): (rest: seq<Bytes>) {
    if position.None? || keys == [] || Less(position.value, keys[0]) then keys
    else After(keys[1..], position)
  }

  function Take(keys: seq<Bytes>, limit: nat): seq<Bytes> {
    if |keys| > limit then keys[..limit] else keys
  }

  datatype Page = Page(keys: seq<Bytes>, next: Option<Bytes>)

  function PageOf(keys: seq<Bytes>, position: Option<Bytes>, limit: nat): (page: Page)
    requires limit > 0
    ensures page.next.Some? ==> page.keys != [] && page.next.value == page.keys[|page.keys| - 1] && |page.keys| == limit
  {
    var rest := After(keys, position);
    var page := Take(rest, limit);
    Page(page, if |rest| > limit then Some(page[|page| - 1]) else None)
  }

  predicate Beyond(position: Option<Bytes>, key: Bytes) {
    position.None? || Less(position.value, key)
  }

  /** The keys after a position are a suffix, and exactly the greater ones. */
  lemma {:induction false} AfterIs(keys: seq<Bytes>, position: Option<Bytes>)
    requires Increasing(keys)
    ensures |After(keys, position)| <= |keys| && After(keys, position) == keys[|keys| - |After(keys, position)|..]
    ensures Increasing(After(keys, position))
    ensures forall k :: k in After(keys, position) <==> k in keys && Beyond(position, k)
    decreases |keys|
  {
    hide Less;
    if position.None? || keys == [] {
    } else if Less(position.value, keys[0]) {
      forall k | k in keys ensures Beyond(position, k) {
        FirstIsLeast(keys, k);
        if k != keys[0] { LessTransitive(position.value, keys[0], k); }
      }
    } else {
      assert Increasing(keys[1..]);
      AfterIs(keys[1..], position);
      assert keys == [keys[0]] + keys[1..];
    }
  }

  /** The first n of increasing keys are those up to the n-th. */
  lemma PrefixIs(keys: seq<Bytes>, n: nat)
    requires Increasing(keys) && 0 < n <= |keys|
    ensures forall k :: k in keys[..n] <==> k in keys && (k == keys[n - 1] || Less(k, keys[n - 1]))
  {
    hide Less;
    forall k ensures k in keys[..n] <==> k in keys && (k == keys[n - 1] || Less(k, keys[n - 1])) {
      if k in keys[..n] {
        var i :| 0 <= i < n && keys[..n][i] == k;
        assert keys[i] == k;
      }
      if k in keys && (k == keys[n - 1] || Less(k, keys[n - 1])) {
        var i :| 0 <= i < |keys| && keys[i] == k;
        NotLater(keys, n - 1, i);
        assert keys[..n][i] == k;
      }
    }
  }

  lemma NotLater(keys: seq<Bytes>, i: nat, j: nat)
    requires Increasing(keys) && i < |keys| && j < |keys| && (keys[j] == keys[i] || Less(keys[j], keys[i]))
    ensures j <= i
  {
    hide Less;
    LessIrreflexive(keys[i]);
    if Less(keys[j], keys[i]) && Less(keys[i], keys[j]) {
      LessTransitive(keys[i], keys[j], keys[i]);
    }
  }

  /** The two halves of a page: what it holds comes before what it leaves. */
  lemma PageSplits(keys: seq<Bytes>, position: Option<Bytes>, limit: nat)
    requires Increasing(keys) && limit > 0
    ensures var page := PageOf(keys, position, limit);
      && Increasing(page.keys)
      && (forall k :: k in page.keys <==>
            k in keys && Beyond(position, k) && (page.next.None? || k == page.next.value || Less(k, page.next.value)))
      && (page.next.Some? ==> page.next.value in keys && Beyond(position, page.next.value))
  {
    hide Less;
    hide Increasing;
    AfterIs(keys, position);
    var rest := After(keys, position);
    assert Increasing(Take(rest, limit)) by { if |rest| > limit { IncreasingTail(rest, 0, limit); } }
    if |rest| > limit {
      PrefixIs(rest, limit);
      assert rest[limit - 1] in rest;
    }
  }

  /** A page is full when more follow, and more do follow then. */
  lemma PageLength(keys: seq<Bytes>, position: Option<Bytes>, limit: nat)
    requires Increasing(keys) && limit > 0
    ensures var page := PageOf(keys, position, limit);
      && |page.keys| <= limit
      && (page.next.Some? ==> exists k :: k in keys && Beyond(position, k) && Less(page.next.value, k))
  {
    hide Less;
    hide Increasing;
    AfterIs(keys, position);
    var rest := After(keys, position);
    if |rest| > limit {
      FollowsInOrder(rest, limit - 1, limit);
      assert rest[limit] in rest;
    }
  }

  lemma FollowsInOrder(keys: seq<Bytes>, i: nat, j: nat)
    requires Increasing(keys) && i < j < |keys|
    ensures Less(keys[i], keys[j])
  {
  }

  // ---- Walks over a list that may change between the pages ----

  /** Each page was taken from the list of its moment, after the position the page before gave. */
  ghost predicate IsWalk(lists: seq<seq<Bytes>>, pages: seq<Page>, limit: nat) {
    && |lists| == |pages| && pages != [] && limit > 0
    && (forall i | 0 <= i < |lists| :: Increasing(lists[i]))
    && pages[0] == PageOf(lists[0], None, limit)
    && (forall i | 0 <= i < |pages| - 1 ::
          pages[i].next.Some? && pages[i + 1] == PageOf(lists[i + 1], pages[i].next, limit))
  }

  ghost predicate Complete(pages: seq<Page>) {
    pages != [] && pages[|pages| - 1].next.None?
  }

  function Emitted(pages: seq<Page>): seq<Bytes> {
    if pages == [] then [] else Emitted(pages[..|pages| - 1]) + pages[|pages| - 1].keys
  }

  lemma WalkPrefix(lists: seq<seq<Bytes>>, pages: seq<Page>, limit: nat, n: nat)
    requires IsWalk(lists, pages, limit) && 0 < n <= |pages|
    ensures IsWalk(lists[..n], pages[..n], limit)
  {
    hide PageOf;
    hide Increasing;
  }

  lemma WalkFirst(list: seq<Bytes>, limit: nat)
    requires Increasing(list) && limit > 0
    ensures IsWalk([list], [PageOf(list, None, limit)], limit)
  {
    hide PageOf;
    hide Increasing;
  }

  lemma WalkNext(lists: seq<seq<Bytes>>, pages: seq<Page>, list: seq<Bytes>, limit: nat)
    requires IsWalk(lists, pages, limit) && Increasing(list) && pages[|pages| - 1].next.Some?
    ensures IsWalk(lists + [list], pages + [PageOf(list, pages[|pages| - 1].next, limit)], limit)
  {
    hide PageOf;
    hide Increasing;
  }

  function PositionBefore(pages: seq<Page>): Option<Bytes>
    requires pages != []
  {
    if |pages| == 1 then None else pages[|pages| - 2].next
  }

  /** What a walk has emitted increases strictly, and does not pass its position. */
  lemma {:induction false} WalkIncreases(lists: seq<seq<Bytes>>, pages: seq<Page>, limit: nat)
    requires IsWalk(lists, pages, limit)
    ensures Increasing(Emitted(pages))
    ensures var last := pages[|pages| - 1];
      last.next.Some? ==> forall k | k in Emitted(pages) :: k == last.next.value || Less(k, last.next.value)
    decreases |pages|
  {
    hide Less;
    hide PageOf;
    var last := |pages| - 1;
    var position := PositionBefore(pages);
    PageSplits(lists[last], position, limit);
    if last == 0 {
      assert pages[..0] == [];
      assert Emitted(pages) == pages[0].keys;
    } else {
      WalkPrefix(lists, pages, limit, last);
      WalkIncreases(lists[..last], pages[..last], limit);
      JoinIncreasing(Emitted(pages[..last]), pages[last].keys, position.value);
      if pages[last].next.Some? {
        forall k | k in Emitted(pages[..last]) ensures Less(k, pages[last].next.value) {
          if k != position.value { LessTransitive(k, position.value, pages[last].next.value); }
        }
      }
    }
  }

  lemma JoinIncreasing(s: seq<Bytes>, t: seq<Bytes>, middle: Bytes)
    requires Increasing(s) && Increasing(t)
    requires forall k | k in s :: k == middle || Less(k, middle)
    requires forall k | k in t :: Less(middle, k)
    ensures Increasing(s + t)
  {
    hide Less;
    forall i, j | 0 <= i < j < |s + t| ensures Less((s + t)[i], (s + t)[j]) {
      if i < |s| && j >= |s| {
        assert s[i] in s && t[j - |s|] in t;
        if s[i] != middle { LessTransitive(s[i], middle, t[j - |s|]); }
      }
    }
  }

  /** A key that was in every list so far is either emitted or still ahead, whatever else came and went. */
  lemma {:induction false} PresentIsEmitted(lists: seq<seq<Bytes>>, pages: seq<Page>, limit: nat, key: Bytes)
    requires IsWalk(lists, pages, limit)
    requires forall i | 0 <= i < |lists| :: key in lists[i]
    ensures var last := pages[|pages| - 1];
      key in Emitted(pages) || (last.next.Some? && Less(last.next.value, key))
    decreases |pages|
  {
    hide Less;
    hide PageOf;
    var last := |pages| - 1;
    var position := PositionBefore(pages);
    PageSplits(lists[last], position, limit);
    if last > 0 {
      WalkPrefix(lists, pages, limit, last);
      PresentIsEmitted(lists[..last], pages[..last], limit, key);
    }
    if pages[last].next.Some? {
      LessTotal(key, pages[last].next.value);
    }
  }

  function Count(keys: seq<Bytes>, key: Bytes): nat {
    if keys == [] then 0 else Count(keys[..|keys| - 1], key) + if keys[|keys| - 1] == key then 1 else 0
  }

  lemma {:induction false} CountIncreasing(keys: seq<Bytes>, key: Bytes)
    requires Increasing(keys)
    ensures Count(keys, key) == if key in keys then 1 else 0
    decreases |keys|
  {
    hide Less;
    if keys != [] {
      var init, last := keys[..|keys| - 1], keys[|keys| - 1];
      CountIncreasing(init, key);
      assert keys == init + [last];
      if last in init {
        var i :| 0 <= i < |init| && init[i] == last;
        IncreasingDistinct(keys, i, |keys| - 1);
      }
    }
  }

  /** In a completed walk every key that was there throughout appears exactly once, and no key twice. */
  lemma CompleteWalk(lists: seq<seq<Bytes>>, pages: seq<Page>, limit: nat, key: Bytes)
    requires IsWalk(lists, pages, limit) && Complete(pages)
    ensures Count(Emitted(pages), key) <= 1
    ensures (forall i | 0 <= i < |lists| :: key in lists[i]) ==> Count(Emitted(pages), key) == 1
  {
    WalkIncreases(lists, pages, limit);
    CountIncreasing(Emitted(pages), key);
    if forall i | 0 <= i < |lists| :: key in lists[i] {
      PresentIsEmitted(lists, pages, limit, key);
    }
  }

  // ---- Walks over a fixed list ----

  /** After the n-th key come all but the first n. */
  lemma {:induction false} AfterPosition(keys: seq<Bytes>, n: nat)
    requires Increasing(keys) && 0 < n <= |keys|
    ensures After(keys, Some(keys[n - 1])) == keys[n..]
    decreases n
  {
    hide Less;
    LessIrreflexive(keys[0]);
    if n == 1 {
      assert keys[1..] == [] || Less(keys[0], keys[1]);
    } else {
      NotLess(keys, 0, n - 1);
      assert Increasing(keys[1..]);
      AfterPosition(keys[1..], n - 1);
    }
  }

  lemma NotLess(keys: seq<Bytes>, i: nat, j: nat)
    requires Increasing(keys) && i < j < |keys|
    ensures !Less(keys[j], keys[i])
  {
    hide Less;
    if Less(keys[j], keys[i]) {
      NotLater(keys, i, j);
    }
  }

  /** A page that is not empty unless the list is, with which the first n keys have been emitted. */
  predicate UpTo(list: seq<Bytes>, page: Page, n: nat) {
    && n <= |list|
    && (list != [] ==> n > 0 && page.keys != [])
    && page.next == if 0 < n < |list| then Some(list[n - 1]) else None
  }

  /** The pages of a list that stays the same are consecutive slices of it. */
  lemma {:induction false} FixedWalk(list: seq<Bytes>, lists: seq<seq<Bytes>>, pages: seq<Page>, limit: nat)
    requires IsWalk(lists, pages, limit) && forall i | 0 <= i < |lists| :: lists[i] == list
    ensures |Emitted(pages)| <= |list| && Emitted(pages) == list[..|Emitted(pages)|]
    ensures UpTo(list, pages[|pages| - 1], |Emitted(pages)|)
    decreases |pages|
  {
    hide Less;
    hide Increasing;
    hide PageOf;
    hide UpTo;
    var last := |pages| - 1;
    assert lists[0] == list && lists[last] == list && Increasing(list);
    if last == 0 {
      assert pages[..0] == [];
      FirstPage(list, limit);
    } else {
      WalkPrefix(lists, pages, limit, last);
      FixedWalk(list, lists[..last], pages[..last], limit);
      assert pages[..last][last - 1] == pages[last - 1];
      var m := |Emitted(pages[..last])|;
      UpToNext(list, pages[last - 1], m);
      NextPage(list, m, limit);
      NextOfWalk(lists, pages, limit, last);
    }
  }

  lemma UpToNext(list: seq<Bytes>, page: Page, n: nat)
    requires UpTo(list, page, n) && page.next.Some?
    ensures 0 < n < |list| && page.next == Some(list[n - 1])
  {
  }

  lemma NextOfWalk(lists: seq<seq<Bytes>>, pages: seq<Page>, limit: nat, i: nat)
    requires IsWalk(lists, pages, limit) && 0 < i < |pages|
    ensures pages[i - 1].next.Some? && pages[i] == PageOf(lists[i], pages[i - 1].next, limit)
  {
    hide PageOf;
    hide Increasing;
    var k := i - 1;
    assert pages[k].next.Some? && pages[k + 1] == PageOf(lists[k + 1], pages[k].next, limit);
  }

  lemma FirstPage(list: seq<Bytes>, limit: nat)
    requires limit > 0
    ensures var page := PageOf(list, None, limit); var n := |page.keys|;
      n <= |list| && page.keys == list[..n] && UpTo(list, page, n)
  {
  }

  lemma NextPage(list: seq<Bytes>, m: nat, limit: nat)
    requires limit > 0 && 0 < m < |list| && Increasing(list)
    ensures var page := PageOf(list, Some(list[m - 1]), limit); var n := m + |page.keys|;
      n <= |list| && list[..m] + page.keys == list[..n] && UpTo(list, page, n)
  {
    AfterPosition(list, m);
  }

  /** The keys of so many full pages. */
  function Rows(limit: nat, pages: nat): nat { limit * pages }

  lemma OneMorePage(limit: nat, pages: nat)
    ensures Rows(limit, 0) == 0
    ensures pages > 0 ==> Rows(limit, pages) == Rows(limit, pages - 1) + limit
    ensures limit > 0 && Rows(limit, pages) == 0 ==> pages == 0
  {
  }

  /** All pages but the last are full, and the last is when another follows. */
  lemma {:induction false} EmittedLength(lists: seq<seq<Bytes>>, pages: seq<Page>, limit: nat)
    requires IsWalk(lists, pages, limit)
    ensures |Emitted(pages)| == Rows(limit, |pages| - 1) + |pages[|pages| - 1].keys|
    ensures |pages[|pages| - 1].keys| <= limit
    ensures pages[|pages| - 1].next.Some? ==> |pages[|pages| - 1].keys| == limit
    decreases |pages|
  {
    hide Increasing;
    hide PageOf;
    hide Rows;
    var last := |pages| - 1;
    OneMorePage(limit, last);
    PageSize(lists[last], PositionBefore(pages), limit);
    if last == 0 {
      assert pages[..0] == [];
    } else {
      WalkPrefix(lists, pages, limit, last);
      EmittedLength(lists[..last], pages[..last], limit);
      assert pages[..last][last - 1] == pages[last - 1] && pages[last - 1].next.Some?;
    }
  }

  lemma PageSize(list: seq<Bytes>, position: Option<Bytes>, limit: nat)
    requires limit > 0
    ensures |PageOf(list, position, limit).keys| <= limit
    ensures PageOf(list, position, limit).next.Some? ==> |PageOf(list, position, limit).keys| == limit
  {
    hide After;
  }

  /**
   A walk over a fixed list has emitted as many keys as its pages hold, is complete exactly when that is the
   whole list, and is never longer than that takes.
   */
  lemma FixedWalkCompletes(list: seq<Bytes>, lists: seq<seq<Bytes>>, pages: seq<Page>, limit: nat)
    requires IsWalk(lists, pages, limit) && forall i | 0 <= i < |lists| :: lists[i] == list
    ensures Emitted(pages) == Take(list, Rows(limit, |pages|))
    ensures Complete(pages) <==> |list| <= Rows(limit, |pages|)
    ensures |pages| == 1 || Rows(limit, |pages| - 1) < |list|
  {
    hide Increasing;
    hide PageOf;
    hide Rows;
    FixedWalk(list, lists, pages, limit);
    EmittedLength(lists, pages, limit);
    OneMorePage(limit, |pages|);
    OneMorePage(limit, |pages| - 1);
  }
}
