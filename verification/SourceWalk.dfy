/** Following the next cursors of the data source list, through a registry that changes between the calls. */
module SourceWalk {
  import opened Common
  import opened Text
  import opened Order
  import opened Paging
  import opened SourceList
  import Base64
  import Connection
  import Cursor
  import Json

  /** Ids are short and ASCII. */
  lemma ValidIdsArePlain(id: Bytes)
    requires Connection.ValidID(id)
    ensures ValidUtf8(id) && id != [] && |id| <= 128
  {
    PlainIsValid(id);
  }

  /** A cursor the service emits decodes to the id it was made from, for the request it was made for. */
  lemma EmittedCursorDecodes(s: Service, request: Request, limit: nat, id: Bytes)
    requires Usable(s) && Connection.ValidID(id)
    ensures var r := CursorRequestFor(request, limit); var cursor := Cursor.EncodeCursor(s.digest, r, id, 0);
      && cursor != []
      && Cursor.DecodeCursor(s.digest, s.read, cursor, r, false) == Some(Cursor.PayloadFor(s.digest, r, id, 0))
  {
    hide Cursor.MarshalPayload;
    hide Cursor.Fingerprint;
    hide Cursor.DecodeCursor;
    var r := CursorRequestFor(request, limit);
    ValidIdsArePlain(id);
    Cursor.NameSurvives(id);
    Cursor.NamePayloadSize(s.digest, r, id);
    Json.EscapeAtMost(id);
    Cursor.CursorRoundTrip(s.digest, s.read, r, id, 0);
    Cursor.PayloadIsLong(Cursor.PayloadFor(s.digest, r, id, 0));
    Base64.EncodedLength(Cursor.MarshalPayload(Cursor.PayloadFor(s.digest, r, id, 0)));
  }

  /** The page a request takes, when it follows the page that ended at this id, or none. */
  ghost function PageAt(s: Service, request: Request, limit: nat, defs: Connection.Definitions,
                        position: Option<Bytes>)
    : Page
    requires limit > 0
  {
    PageOf(MatchingIds(s, request.search, defs), position, limit)
  }

  ghost predicate Matching(page: Page, result: SourcePage, s: Service, r: Cursor.CursorRequest) {
    && IdsOf(result.sources) == page.keys
    && result.nextCursor == NextCursor(s, r, page.next)
  }

  /** A request that carries the cursor after a valid id is answered with the page after that id. */
  lemma FollowedPage(s: Service, request: Request, limit: nat, defs: Connection.Definitions, position: Option<Bytes>)
    requires Usable(s) && Connection.Keyed(defs) && EffectiveLimit(request.limit, s.maxLimit) == Some(limit)
    requires position.Some? ==> Connection.ValidID(position.value)
    ensures var r := CursorRequestFor(request, limit);
      var answer := SourcesFor(s, defs, request.(cursor := NextCursor(s, r, position)), true);
      && answer.Ok?
      && Matching(PageAt(s, request, limit, defs, position), answer.value, s, r)
      && AllFrom(s, defs, answer.value.sources)
  {
    hide Cursor.DecodeCursor;
    hide Cursor.EncodeCursor;
    hide PageOf;
    hide Connection.ValidID;
    hide Connection.ValidDefinition;
    hide Matches;
    var r := CursorRequestFor(request, limit);
    if position.Some? {
      EmittedCursorDecodes(s, request, limit, position.value);
    } else {
      NoCursor(s, r);
    }
    var ids := MatchingIds(s, request.search, defs);
    var keys := PageOf(ids, position, limit).keys;
    PageSplits(ids, position, limit);
    assert forall i | 0 <= i < |keys| :: keys[i] in keys && keys[i] in defs;
    assert IdsOf(Rendered(s, defs, keys)) == keys;
  }

  lemma NoCursor(s: Service, r: Cursor.CursorRequest)
    ensures Cursor.DecodeCursor(s.digest, s.read, [], r, false) == Some(Cursor.START)
  {
  }

  lemma NextIsValid(s: Service, request: Request, limit: nat, defs: Connection.Definitions, position: Option<Bytes>)
    requires limit > 0 && Connection.Keyed(defs)
    ensures var next := PageAt(s, request, limit, defs, position).next;
      next.Some? ==> Connection.ValidID(next.value)
  {
    hide PageOf;
    hide Matches;
    PageSplits(MatchingIds(s, request.search, defs), position, limit);
  }

  // ---- Walks ----

  /** Each answer is to the cursor of the one before, from the registry of its moment. */
  ghost predicate Follows(s: Service, request: Request, registries: seq<Connection.Definitions>,
                          results: seq<SourcePage>)
  {
    && s.maxLimit > 0 && |registries| == |results| && results != []
    && (forall i | 0 <= i < |registries| :: Connection.Keyed(registries[i]))
    && SourcesFor(s, registries[0], request.(cursor := []), true) == Ok(results[0])
    && (forall i | 0 <= i < |results| - 1 ::
          && results[i].nextCursor != []
          && SourcesFor(s, registries[i + 1], request.(cursor := results[i].nextCursor), true) == Ok(results[i + 1]))
  }

  ghost function ListsOf(s: Service, request: Request, registries: seq<Connection.Definitions>)
    : (lists: seq<seq<Bytes>>)
    ensures |lists| == |registries|
  {
    if registries == [] then []
    else
      ListsOf(s, request, registries[..|registries| - 1])
        + [MatchingIds(s, request.search, registries[|registries| - 1])]
  }

  lemma {:induction false} ListAt(s: Service, request: Request, registries: seq<Connection.Definitions>, i: nat)
    requires i < |registries|
    ensures ListsOf(s, request, registries)[i] == MatchingIds(s, request.search, registries[i])
    decreases |registries|
  {
    hide MatchingIds;
    if i < |registries| - 1 {
      ListAt(s, request, registries[..|registries| - 1], i);
    }
  }

  ghost function PagesOf(s: Service, request: Request, limit: nat, registries: seq<Connection.Definitions>)
    : (pages: seq<Page>)
    requires limit > 0
    ensures |pages| == |registries|
  {
    if registries == [] then []
    else
      var before := PagesOf(s, request, limit, registries[..|registries| - 1]);
      before + [PageAt(s, request, limit, registries[|registries| - 1],
                       if before == [] then None else before[|before| - 1].next)]
  }

  /** The answers are the pages of a walk, cursor by cursor. */
  lemma {:induction false} FollowedWalk(s: Service, request: Request, limit: nat,
                                        registries: seq<Connection.Definitions>, results: seq<SourcePage>)
    requires s.maxLimit > 0 && Usable(s) && EffectiveLimit(request.limit, s.maxLimit) == Some(limit)
    requires Follows(s, request, registries, results)
    ensures var pages := PagesOf(s, request, limit, registries);
      && IsWalk(ListsOf(s, request, registries), pages, limit)
      && (forall i | 0 <= i < |pages| :: Matching(pages[i], results[i], s, CursorRequestFor(request, limit)))
      && (pages[|pages| - 1].next.Some? ==> Connection.ValidID(pages[|pages| - 1].next.value))
    decreases |registries|
  {
    hide Cursor.DecodeCursor;
    hide Cursor.EncodeCursor;
    hide Connection.Keyed;
    hide Connection.ValidID;
    hide SourcesFor;
    hide PageOf;
    hide Matches;
    hide NextCursor;
    var last := |registries| - 1;
    var pages := PagesOf(s, request, limit, registries);
    var before := PagesOf(s, request, limit, registries[..last]);
    var r := CursorRequestFor(request, limit);
    var position := if last == 0 then None else before[last - 1].next;
    if last > 0 {
      FollowsPrefix(s, request, registries, results);
      FollowedWalk(s, request, limit, registries[..last], results[..last]);
      assert Matching(before[last - 1], results[..last][last - 1], s, r);
      CursorMeansMore(s, r, position);
    } else {
      CursorMeansMore(s, r, None);
    }
    FollowedPage(s, request, limit, registries[last], position);
    NextIsValid(s, request, limit, registries[last], position);
    WalkExtends(s, request, limit, registries);
  }

  lemma CursorMeansMore(s: Service, r: Cursor.CursorRequest, next: Option<Bytes>)
    ensures NextCursor(s, r, None) == []
    ensures NextCursor(s, r, next) != [] ==> next.Some?
  {
  }

  lemma FollowsPrefix(s: Service, request: Request, registries: seq<Connection.Definitions>, results: seq<SourcePage>)
    requires Follows(s, request, registries, results) && |results| > 1
    ensures Follows(s, request, registries[..|results| - 1], results[..|results| - 1])
  {
    hide SourcesFor;
    hide Connection.Keyed;
  }

  lemma WalkExtends(s: Service, request: Request, limit: nat, registries: seq<Connection.Definitions>)
    requires limit > 0 && registries != []
    requires |registries| > 1 ==>
      var before := PagesOf(s, request, limit, registries[..|registries| - 1]);
      IsWalk(ListsOf(s, request, registries[..|registries| - 1]), before, limit) && before[|before| - 1].next.Some?
    ensures IsWalk(ListsOf(s, request, registries), PagesOf(s, request, limit, registries), limit)
  {
    hide *;
    var last := |registries| - 1;
    var before, lists := PagesOf(s, request, limit, registries[..last]), ListsOf(s, request, registries[..last]);
    var list := MatchingIds(s, request.search, registries[last]);
    OneMoreAnswer(s, request, limit, registries);
    if last == 0 {
      WalkFirst(list, limit);
    } else {
      WalkNext(lists, before, list, limit);
    }
  }

  lemma OneMoreAnswer(s: Service, request: Request, limit: nat, registries: seq<Connection.Definitions>)
    requires limit > 0 && registries != []
    ensures var last := |registries| - 1;
      var before := PagesOf(s, request, limit, registries[..last]);
      var list := MatchingIds(s, request.search, registries[last]);
      var page := PageOf(list, if last == 0 then None else before[last - 1].next, limit);
      && ListsOf(s, request, registries) ==
           (if last == 0 then [list] else ListsOf(s, request, registries[..last]) + [list])
      && PagesOf(s, request, limit, registries) == if last == 0 then [page] else before + [page]
  {
    hide PageOf;
    hide MatchingIds;
    if |registries| == 1 {
      assert registries[..0] == [];
      assert PagesOf(s, request, limit, []) == [] && ListsOf(s, request, []) == [];
    }
  }

  function IdsOfAll(results: seq<SourcePage>): seq<Bytes> {
    if results == [] then [] else IdsOfAll(results[..|results| - 1]) + IdsOf(results[|results| - 1].sources)
  }

  lemma {:induction false} EmittedIds(pages: seq<Page>, results: seq<SourcePage>, s: Service, r: Cursor.CursorRequest)
    requires |pages| == |results| && forall i | 0 <= i < |pages| :: Matching(pages[i], results[i], s, r)
    ensures Emitted(pages) == IdsOfAll(results)
    decreases |pages|
  {
    hide NextCursor;
    if pages != [] {
      EmittedIds(pages[..|pages| - 1], results[..|results| - 1], s, r);
    }
  }

  /** No next cursor leads to an error: what is emitted decodes, whatever the registry has become. */
  lemma CursorsLeadOn(s: Service, request: Request, limit: nat, registries: seq<Connection.Definitions>,
                      results: seq<SourcePage>, now: Connection.Definitions)
    requires s.maxLimit > 0 && Usable(s) && EffectiveLimit(request.limit, s.maxLimit) == Some(limit)
    requires Follows(s, request, registries, results) && Connection.Keyed(now)
    ensures SourcesFor(s, now, request.(cursor := results[|results| - 1].nextCursor), true).Ok?
  {
    hide SourcesFor;
    hide Connection.Keyed;
    hide IsWalk;
    FollowedWalk(s, request, limit, registries, results);
    var pages := PagesOf(s, request, limit, registries);
    assert Matching(pages[|pages| - 1], results[|results| - 1], s, CursorRequestFor(request, limit));
    FollowedPage(s, request, limit, now, pages[|pages| - 1].next);
  }

  /**
   Through any changes of the registry, the ids of the answers increase strictly, so none comes twice. When
   the last answer has no next cursor, every source that matched all along has come exactly once.
   */
  lemma WalkMissesNothing(s: Service, request: Request, limit: nat, registries: seq<Connection.Definitions>,
                          results: seq<SourcePage>, id: Bytes)
    requires s.maxLimit > 0 && Usable(s) && EffectiveLimit(request.limit, s.maxLimit) == Some(limit)
    requires Follows(s, request, registries, results)
    ensures Increasing(IdsOfAll(results)) && Count(IdsOfAll(results), id) <= 1
    ensures (results[|results| - 1].nextCursor == [] && Matches(s, request.search, id)
             && forall i | 0 <= i < |registries| :: id in registries[i])
            ==> Count(IdsOfAll(results), id) == 1
  {
    hide SourcesFor;
    hide Connection.Keyed;
    hide IsWalk;
    hide Less;
    hide Matches;
    hide PagesOf;
    hide IdsOfAll;
    hide Emitted;
    hide Increasing;
    hide Count;
    hide ListsOf;
    hide Usable;
    FollowedWalk(s, request, limit, registries, results);
    var pages, lists := PagesOf(s, request, limit, registries), ListsOf(s, request, registries);
    var r := CursorRequestFor(request, limit);
    EmittedIds(pages, results, s, r);
    WalkIncreases(lists, pages, limit);
    CountIncreasing(IdsOfAll(results), id);
    assert Matching(pages[|pages| - 1], results[|results| - 1], s, r);
    if results[|results| - 1].nextCursor == [] {
      LastHasNone(s, request, limit, pages[|pages| - 1], results[|results| - 1]);
      if Matches(s, request.search, id) && forall i | 0 <= i < |registries| :: id in registries[i] {
        PresentThroughout(s, request, registries, id);
      }
      CompleteWalk(lists, pages, limit, id);
    }
  }

  lemma LastHasNone(s: Service, request: Request, limit: nat, page: Page, result: SourcePage)
    requires Usable(s) && Matching(page, result, s, CursorRequestFor(request, limit)) && result.nextCursor == []
    requires page.next.Some? ==> Connection.ValidID(page.next.value)
    ensures page.next.None?
  {
    hide Cursor.EncodeCursor;
    hide Cursor.DecodeCursor;
    if page.next.Some? {
      EmittedCursorDecodes(s, request, limit, page.next.value);
    }
  }

  lemma SameLists(s: Service, request: Request, registries: seq<Connection.Definitions>)
    requires registries != [] && forall i | 0 <= i < |registries| :: registries[i] == registries[0]
    ensures var lists := ListsOf(s, request, registries);
      forall i | 0 <= i < |lists| :: lists[i] == MatchingIds(s, request.search, registries[0])
  {
    hide *;
    var lists := ListsOf(s, request, registries);
    forall i | 0 <= i < |lists| ensures lists[i] == MatchingIds(s, request.search, registries[0]) {
      ListAt(s, request, registries, i);
    }
  }

  lemma PresentThroughout(s: Service, request: Request, registries: seq<Connection.Definitions>, id: Bytes)
    requires Matches(s, request.search, id) && forall i | 0 <= i < |registries| :: id in registries[i]
    ensures var lists := ListsOf(s, request, registries); forall i | 0 <= i < |lists| :: id in lists[i]
  {
    hide ListsOf;
    hide Matches;
    var lists := ListsOf(s, request, registries);
    forall i | 0 <= i < |lists| ensures id in lists[i] {
      ListAt(s, request, registries, i);
    }
  }

  /**
   On a registry that stays the same, the answers list the matching ids in order, as many as they hold; the
   last has no next cursor exactly when that is all of them; and no walk is longer than that takes, so one
   that follows its cursors ends, after as many pages as the ids need, and one when there are none.
   */
  lemma FixedRegistry(s: Service, request: Request, limit: nat, registries: seq<Connection.Definitions>,
                      results: seq<SourcePage>)
    requires s.maxLimit > 0 && Usable(s) && EffectiveLimit(request.limit, s.maxLimit) == Some(limit)
    requires Follows(s, request, registries, results)
    requires forall i | 0 <= i < |registries| :: registries[i] == registries[0]
    ensures var ids := MatchingIds(s, request.search, registries[0]);
      && IdsOfAll(results) == Take(ids, Rows(limit, |results|))
      && (results[|results| - 1].nextCursor == [] <==> |ids| <= Rows(limit, |results|))
      && (|results| == 1 || Rows(limit, |results| - 1) < |ids|)
  {
    hide *;
    FollowsSize(s, request, registries, results);
    FollowedWalk(s, request, limit, registries, results);
    var pages, lists := PagesOf(s, request, limit, registries), ListsOf(s, request, registries);
    var r := CursorRequestFor(request, limit);
    EmittedIds(pages, results, s, r);
    SameLists(s, request, registries);
    FixedWalkCompletes(MatchingIds(s, request.search, registries[0]), lists, pages, limit);
    LastCursor(s, request, limit, pages, results);
  }

  lemma FollowsSize(s: Service, request: Request, registries: seq<Connection.Definitions>, results: seq<SourcePage>)
    requires Follows(s, request, registries, results)
    ensures |registries| == |results| > 0
  {
  }

  lemma LastCursor(s: Service, request: Request, limit: nat, pages: seq<Page>, results: seq<SourcePage>)
    requires Usable(s) && |pages| == |results| > 0
    requires forall i | 0 <= i < |pages| :: Matching(pages[i], results[i], s, CursorRequestFor(request, limit))
    requires pages[|pages| - 1].next.Some? ==> Connection.ValidID(pages[|pages| - 1].next.value)
    ensures results[|results| - 1].nextCursor == [] <==> Complete(pages)
  {
    hide Cursor.EncodeCursor;
    hide Usable;
    var page, result := pages[|pages| - 1], results[|results| - 1];
    assert Matching(page, result, s, CursorRequestFor(request, limit));
    if result.nextCursor == [] {
      LastHasNone(s, request, limit, page, result);
    }
  }
}
