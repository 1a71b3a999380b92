/** Listing schemas, tables and columns: a query for one row more than the page, and a cursor on its last row. */
module RelationalList {
  import opened Common
  import opened Text
  import opened Order
  import Base64
  import Cursor
  import Json
  import opened Paging
  import opened SourceList

  /** A row of a catalog: schemas and tables page by name, columns by their ordinal, which may have gaps. */
  datatype Item = Item(name: Bytes, ordinal: int, detail: Bytes)

  datatype Listing = Listing(items: seq<Item>, nextCursor: Bytes)

  predicate Precedes(a: Item, b: Item, byOrdinal: bool) {
    if byOrdinal then a.ordinal < b.ordinal else Less(a.name, b.name)
  }

  /** The catalog in the order of its key. */
  ghost predicate Catalog(items: seq<Item>, byOrdinal: bool) {
    && (forall i, j | 0 <= i < j < |items| :: Precedes(items[i], items[j], byOrdinal))
    && forall i | 0 <= i < |items| :: Key(items[i], byOrdinal)
  }

  /** A name, or a positive machine integer. */
  predicate Key(item: Item, byOrdinal: bool) {
    if byOrdinal then 0 < item.ordinal < 0x8000_0000_0000_0000 else item.name != []
  }

  predicate Short(name: Bytes) {
    |Json.Escape(name)| <= Cursor.MAX_PAYLOAD - Cursor.NAME_FRAME
  }

  /** A cursor can carry the key: a text short enough when it is encoded, or a positive machine integer. */
  predicate Nameable(item: Item, byOrdinal: bool) {
    Key(item, byOrdinal) && (byOrdinal || (ValidUtf8(item.name) && Short(item.name)))
  }

  /**
   The cursor after the first n rows, when there are more, leads on to them: its name is short enough, and
   what comes back of it still lies between that row and the next.
   */
  ghost predicate Carried(items: seq<Item>, byOrdinal: bool, n: nat) {
    0 < n < |items| && !byOrdinal ==>
      && Short(items[n - 1].name)
      && !Less(Sanitised(items[n - 1].name), items[n - 1].name)
      && Less(Sanitised(items[n - 1].name), items[n].name)
  }

  /** So do the cursors after the pages before this one. */
  ghost predicate EndsCarried(items: seq<Item>, byOrdinal: bool, limit: nat, pages: nat) {
    forall k | 0 <= k < pages :: Carried(items, byOrdinal, Rows(limit, k))
  }

  /** The condition of the catalog query on the key. */
  predicate Past(item: Item, byOrdinal: bool, p: Cursor.Payload) {
    if byOrdinal then item.ordinal > p.lastOrdinal else Less(p.lastName, item.name)
  }

  function ItemsPast(items: seq<Item>, byOrdinal: bool, p: Cursor.Payload): seq<Item> {
    if items == [] then []
    else if Past(items[0], byOrdinal, p) then [items[0]] + ItemsPast(items[1..], byOrdinal, p)
    else ItemsPast(items[1..], byOrdinal, p)
  }

  function First(items: seq<Item>, n: nat): seq<Item> {
    if |items| > n then items[..n] else items
  }

  /** The catalog query: rows past the key, in order, at most so many. */
  function Query(items: seq<Item>, byOrdinal: bool, p: Cursor.Payload, n: nat): seq<Item> {
    First(ItemsPast(items, byOrdinal, p), n)
  }

  function CursorAfter(s: Service, r: Cursor.CursorRequest, item: Item, byOrdinal: bool): Bytes {
    if byOrdinal then Cursor.EncodeCursor(s.digest, r, [], item.ordinal)
    else Cursor.EncodeCursor(s.digest, r, item.name, 0)
  }

  /** The answer to a request whose catalog is this. */
  function ListingFor(s: Service, r: Cursor.CursorRequest, byOrdinal: bool, items: seq<Item>, cursor: Bytes)
    : Result<Listing, ListError>
    requires r.limit > 0
  {
    match Cursor.DecodeCursor(s.digest, s.read, cursor, r, byOrdinal)
    case None => Err(InvalidCursor)
    case Some(p) => Ok(PageOfRest(s, r, byOrdinal, ItemsPast(items, byOrdinal, p)))
  }

  function PageOfRest(s: Service, r: Cursor.CursorRequest, byOrdinal: bool, rest: seq<Item>): Listing
    requires r.limit > 0
  {
    if |rest| > r.limit then Listing(rest[..r.limit], CursorAfter(s, r, rest[r.limit - 1], byOrdinal))
    else Listing(rest, [])
  }

  /** ListTables and ListColumns of an adapter: read all rows, and keep the one too many out of the page. */
  method DiscoverPage(rows: seq<Item>, limit: nat) returns (page: seq<Item>, hasMore: bool)
    ensures hasMore <==> |rows| > limit
    ensures page == First(rows, limit)
  {
    var items: seq<Item> := [];
    var i := 0;
    while i < |rows|
      invariant 0 <= i <= |rows| && items == rows[..i]
    {
      items := items + [rows[i]];
      i := i + 1;
    }
    assert rows[..i] == rows;
    if |items| > limit {
      return items[..limit], true;
    }
    return items, false;
  }

  lemma OneTooMany(rest: seq<Item>, limit: nat)
    ensures |First(rest, limit + 1)| > limit <==> |rest| > limit
    ensures First(First(rest, limit + 1), limit) == if |rest| > limit then rest[..limit] else rest
  {
  }

  /** The relational methods of the service, after their checks. */
  method ListItems(s: Service, r: Cursor.CursorRequest, byOrdinal: bool, catalog: seq<Item>, cursor: Bytes)
    returns (answer: Result<Listing, ListError>)
    requires r.limit > 0
    ensures answer == ListingFor(s, r, byOrdinal, catalog, cursor)
  {
    hide ItemsPast;
    hide First;
    hide CursorAfter;
    hide Cursor.DecodeCursor;
    var payload := Cursor.DecodeCursor(s.digest, s.read, cursor, r, byOrdinal);
    if payload.None? {
      return Err(InvalidCursor);
    }
    OneTooMany(ItemsPast(catalog, byOrdinal, payload.value), r.limit);
    var page, hasMore := DiscoverPage(Query(catalog, byOrdinal, payload.value, r.limit + 1), r.limit);
    var nextCursor := [];
    if hasMore && page != [] {
      nextCursor := CursorAfter(s, r, page[|page| - 1], byOrdinal);
    }
    return Ok(Listing(page, nextCursor));
  }

  // ---- What follows an item ----

  function PayloadAfter(s: Service, r: Cursor.CursorRequest, item: Item, byOrdinal: bool): Cursor.Payload {
    if byOrdinal then Cursor.PayloadFor(s.digest, r, [], item.ordinal) else Cursor.PayloadFor(s.digest, r, item.name, 0)
  }

  /** The cursor after an item is read back as the position after it exactly when a cursor can carry its key. */
  lemma CursorLeadsBack(s: Service, r: Cursor.CursorRequest, item: Item, byOrdinal: bool)
    requires Usable(s)
    requires Key(item, byOrdinal)
    ensures CursorAfter(s, r, item, byOrdinal) != []
    ensures (Cursor.DecodeCursor(s.digest, s.read, CursorAfter(s, r, item, byOrdinal), r, byOrdinal)
               == Some(PayloadAfter(s, r, item, byOrdinal))) <==> Nameable(item, byOrdinal)
  {
    hide Cursor.MarshalPayload;
    hide Cursor.Fingerprint;
    hide Cursor.DecodeCursor;
    hide Json.Escape;
    var name, ordinal := if byOrdinal then [] else item.name, if byOrdinal then item.ordinal else 0;
    Cursor.NameSurvives(name);
    if byOrdinal {
      Cursor.OrdinalsFit(s.digest, r, ordinal);
    } else {
      Cursor.NamePayloadSize(s.digest, r, name);
    }
    Cursor.CursorRoundTrip(s.digest, s.read, r, name, ordinal);
    Cursor.PayloadIsLong(Cursor.PayloadFor(s.digest, r, name, ordinal));
    Base64.EncodedLength(Cursor.MarshalPayload(Cursor.PayloadFor(s.digest, r, name, ordinal)));
  }

  /** When the first n are not past the key and the others are. */
  lemma {:induction false} ItemsPastAre(items: seq<Item>, byOrdinal: bool, p: Cursor.Payload, n: nat)
    requires n <= |items|
    requires forall i | 0 <= i < n :: !Past(items[i], byOrdinal, p)
    requires forall i | n <= i < |items| :: Past(items[i], byOrdinal, p)
    ensures ItemsPast(items, byOrdinal, p) == items[n..]
    decreases |items|
  {
    hide Past;
    if items != [] {
      ItemsPastAre(items[1..], byOrdinal, p, if n > 0 then n - 1 else 0);
    }
  }

  lemma PastTheStart(items: seq<Item>, byOrdinal: bool)
    requires Catalog(items, byOrdinal)
    ensures ItemsPast(items, byOrdinal, Cursor.START) == items
  {
    hide ValidUtf8;
    ItemsPastAre(items, byOrdinal, Cursor.START, 0);
  }

  lemma PastAnItem(s: Service, r: Cursor.CursorRequest, items: seq<Item>, byOrdinal: bool, n: nat)
    requires Catalog(items, byOrdinal) && 0 < n <= |items|
    ensures ItemsPast(items, byOrdinal, PayloadAfter(s, r, items[n - 1], byOrdinal)) == items[n..]
  {
    hide Cursor.Fingerprint;
    hide Less;
    hide Key;
    var p := PayloadAfter(s, r, items[n - 1], byOrdinal);
    if byOrdinal {
      forall i | 0 <= i < n ensures !Past(items[i], byOrdinal, p) {
        assert i < n - 1 ==> Precedes(items[i], items[n - 1], byOrdinal);
      }
      forall i | n <= i < |items| ensures Past(items[i], byOrdinal, p) {
        assert Precedes(items[n - 1], items[i], byOrdinal);
      }
      ItemsPastAre(items, byOrdinal, p, n);
    } else {
      LessIrreflexive(items[n - 1].name);
      assert n < |items| ==> Precedes(items[n - 1], items[n], false);
      PastAName(items, p, n);
    }
  }

  /** A name between those of two neighbours cuts the catalog there. */
  lemma PastAName(items: seq<Item>, p: Cursor.Payload, n: nat)
    requires Catalog(items, false) && 0 < n <= |items|
    requires !Less(p.lastName, items[n - 1].name) && (n < |items| ==> Less(p.lastName, items[n].name))
    ensures ItemsPast(items, false, p) == items[n..]
  {
    hide Less;
    hide Key;
    forall i | 0 <= i < n ensures !Past(items[i], false, p) {
      if i < n - 1 && Less(p.lastName, items[i].name) {
        assert Precedes(items[i], items[n - 1], false);
        LessTransitive(p.lastName, items[i].name, items[n - 1].name);
      }
    }
    forall i | n <= i < |items| ensures Past(items[i], false, p) {
      if i > n {
        assert Precedes(items[n], items[i], false);
        LessTransitive(p.lastName, items[n].name, items[i].name);
      }
    }
    ItemsPastAre(items, false, p, n);
  }

  /** The rows past a key begin no later than with this row, when it is past the key, and with none that is not. */
  lemma {:induction false} FirstPast(items: seq<Item>, byOrdinal: bool, p: Cursor.Payload, k: nat)
    requires k < |items|
    ensures var rest := ItemsPast(items, byOrdinal, p);
      && (rest != [] ==> Past(rest[0], byOrdinal, p))
      && (Past(items[k], byOrdinal, p) ==> rest != [] && exists m | 0 <= m <= k :: rest[0] == items[m])
    decreases |items|
  {
    hide Past;
    if Past(items[0], byOrdinal, p) {
      assert ItemsPast(items, byOrdinal, p)[0] == items[0];
    } else if k > 0 {
      FirstPast(items[1..], byOrdinal, p, k - 1);
    } else if |items| > 1 {
      FirstPast(items[1..], byOrdinal, p, 0);
    }
  }

  /** A name that is not between those of the neighbours cuts the catalog elsewhere. */
  lemma PastElsewhere(items: seq<Item>, p: Cursor.Payload, n: nat)
    requires Catalog(items, false) && 0 < n < |items|
    requires Less(p.lastName, items[n - 1].name) || !Less(p.lastName, items[n].name)
    ensures var rest := ItemsPast(items, false, p);
      rest == [] || rest[0] != items[n]
  {
    hide Less;
    hide Key;
    hide ItemsPast;
    var rest := ItemsPast(items, false, p);
    FirstPast(items, false, p, n - 1);
    if Less(p.lastName, items[n - 1].name) {
      var m :| 0 <= m <= n - 1 && rest[0] == items[m];
      assert Precedes(items[m], items[n], false);
      LessIrreflexive(items[n].name);
    }
  }

  /** What the cursor after a name is read back as. */
  lemma NameComesBack(s: Service, r: Cursor.CursorRequest, name: Bytes)
    requires Usable(s) && name != []
    ensures Cursor.DecodeCursor(s.digest, s.read, Cursor.EncodeCursor(s.digest, r, name, 0), r, false)
            == if Short(name) then Some(Cursor.PayloadFor(s.digest, r, Sanitised(name), 0)) else None
  {
    hide Cursor.MarshalPayload;
    hide Cursor.Fingerprint;
    hide Cursor.DecodeCursor;
    hide Cursor.EncodeCursor;
    hide Json.Escape;
    Cursor.NamePayloadSize(s.digest, r, name);
    Cursor.CursorRoundTrip(s.digest, s.read, r, name, 0);
  }

  /**
   The cursor after the first n rows is answered with the page of the rows that follow exactly when it is carried;
   otherwise it is refused or answered with a page that does not begin with the next row.
   */
  lemma CursorLeadsOn(s: Service, r: Cursor.CursorRequest, items: seq<Item>, byOrdinal: bool, n: nat)
    requires Usable(s) && Catalog(items, byOrdinal) && r.limit > 0 && 0 < n < |items|
    ensures var answer := ListingFor(s, r, byOrdinal, items, CursorAfter(s, r, items[n - 1], byOrdinal));
      && (Carried(items, byOrdinal, n) ==> answer == Ok(PageOfRest(s, r, byOrdinal, items[n..])))
      && (!Carried(items, byOrdinal, n) && answer.Ok? ==>
            answer.value.items == [] || answer.value.items[0] != items[n])
    ensures CursorAfter(s, r, items[n - 1], byOrdinal) != []
  {
    hide Cursor.DecodeCursor;
    hide Cursor.Fingerprint;
    hide Cursor.EncodeCursor;
    hide ItemsPast;
    hide Short;
    hide Less;
    hide Usable;
    KeyAt(items, byOrdinal, n - 1);
    CursorLeadsBack(s, r, items[n - 1], byOrdinal);
    if byOrdinal {
      PastAnItem(s, r, items, byOrdinal, n);
    } else {
      var name := items[n - 1].name;
      NameComesBack(s, r, name);
      var p := Cursor.PayloadFor(s.digest, r, Sanitised(name), 0);
      if Carried(items, false, n) {
        PastAName(items, p, n);
      } else if Short(name) {
        PastElsewhere(items, p, n);
      }
    }
  }

  lemma KeyAt(items: seq<Item>, byOrdinal: bool, i: nat)
    requires Catalog(items, byOrdinal) && i < |items|
    ensures Key(items[i], byOrdinal)
  {
  }

  /** A key that a cursor can carry as it is leads on. */
  lemma NameableIsCarried(items: seq<Item>, byOrdinal: bool, n: nat)
    requires Catalog(items, byOrdinal) && 0 < n <= |items| && Nameable(items[n - 1], byOrdinal)
    ensures Carried(items, byOrdinal, n)
  {
    hide Less;
    LessIrreflexive(items[n - 1].name);
    SanitisedIsValid(items[n - 1].name);
    assert n < |items| ==> Precedes(items[n - 1], items[n], byOrdinal);
  }

  // ---- Walks ----

  /** Each answer is to the cursor of the one before. */
  ghost predicate Follows(s: Service, r: Cursor.CursorRequest, byOrdinal: bool, items: seq<Item>,
                          answers: seq<Listing>) {
    && r.limit > 0 && answers != []
    && ListingFor(s, r, byOrdinal, items, []) == Ok(answers[0])
    && (forall i | 0 <= i < |answers| - 1 ::
          && answers[i].nextCursor != []
          && ListingFor(s, r, byOrdinal, items, answers[i].nextCursor) == Ok(answers[i + 1]))
  }

  function AllItems(answers: seq<Listing>): seq<Item> {
    if answers == [] then [] else AllItems(answers[..|answers| - 1]) + answers[|answers| - 1].items
  }

  /** The answer after the first n rows: the next rows, full unless they are the last, and a cursor if more follow. */
  ghost predicate Continues(s: Service, r: Cursor.CursorRequest, byOrdinal: bool, items: seq<Item>, n: nat,
                            answer: Listing) {
    && n + |answer.items| <= |items| && answer.items == items[n..n + |answer.items|]
    && (n < |items| ==> answer.items != [])
    && (n + |answer.items| < |items| ==> |answer.items| == r.limit)
    && |answer.items| <= r.limit
    && answer.nextCursor == if 0 < n + |answer.items| < |items|
                            then CursorAfter(s, r, items[n + |answer.items| - 1], byOrdinal) else []
  }

  lemma AnswerContinues(s: Service, r: Cursor.CursorRequest, byOrdinal: bool, items: seq<Item>, n: nat)
    requires Usable(s) && r.limit > 0 && Catalog(items, byOrdinal) && n <= |items| && (n == 0 || n < |items|)
    requires Carried(items, byOrdinal, n)
    ensures var cursor := if n == 0 then [] else CursorAfter(s, r, items[n - 1], byOrdinal);
      var answer := ListingFor(s, r, byOrdinal, items, cursor);
      answer.Ok? && Continues(s, r, byOrdinal, items, n, answer.value)
  {
    hide ItemsPast;
    hide CursorAfter;
    hide Cursor.DecodeCursor;
    hide Catalog;
    hide Carried;
    hide Usable;
    hide Continues;
    hide PageOfRest;
    RestContinues(s, r, byOrdinal, items, n);
    assert items[0..] == items;
    if n == 0 {
      NoCursor(s, r, byOrdinal);
      PastTheStart(items, byOrdinal);
    } else {
      CursorLeadsOn(s, r, items, byOrdinal, n);
    }
  }

  lemma RestContinues(s: Service, r: Cursor.CursorRequest, byOrdinal: bool, items: seq<Item>, n: nat)
    requires r.limit > 0 && n <= |items|
    ensures Continues(s, r, byOrdinal, items, n, PageOfRest(s, r, byOrdinal, items[n..]))
  {
    hide CursorAfter;
  }

  lemma NoCursor(s: Service, r: Cursor.CursorRequest, byOrdinal: bool)
    ensures Cursor.DecodeCursor(s.digest, s.read, [], r, byOrdinal) == Some(Cursor.START)
  {
  }

  lemma {:induction false} WalkIsSlices(s: Service, r: Cursor.CursorRequest, byOrdinal: bool, items: seq<Item>,
                                        answers: seq<Listing>)
    requires Usable(s) && Catalog(items, byOrdinal) && Follows(s, r, byOrdinal, items, answers)
    requires EndsCarried(items, byOrdinal, r.limit, |answers|)
    ensures var n := |AllItems(answers[..|answers| - 1])|;
      && n <= |items| && AllItems(answers[..|answers| - 1]) == items[..n]
      && Continues(s, r, byOrdinal, items, n, answers[|answers| - 1])
      && (n == 0 || n < |items|)
      && n == Rows(r.limit, |answers| - 1)
    decreases |answers|
  {
    hide ListingFor;
    hide CursorAfter;
    hide Catalog;
    hide Carried;
    hide Usable;
    hide Rows;
    hide Continues;
    var last := |answers| - 1;
    OneMorePage(r.limit, last);
    if last == 0 {
      assert answers[..0] == [];
      AnswerContinues(s, r, byOrdinal, items, 0);
    } else {
      var before := answers[..last];
      WalkPrefix(s, r, byOrdinal, items, answers, last);
      WalkIsSlices(s, r, byOrdinal, items, before);
      assert before[..last - 1] == answers[..last - 1];
      assert before[last - 1] == answers[last - 1] && answers[last - 1].nextCursor != [];
      var m := |AllItems(before[..last - 1])|;
      MoreFollows(s, r, byOrdinal, items, m, answers[last - 1]);
      assert AllItems(before) == AllItems(before[..last - 1]) + answers[last - 1].items;
      AnswerContinues(s, r, byOrdinal, items, m + r.limit);
    }
  }

  /** An answer with a next cursor is a full page, and rows remain. */
  lemma MoreFollows(s: Service, r: Cursor.CursorRequest, byOrdinal: bool, items: seq<Item>, n: nat, answer: Listing)
    requires n <= |items| && Continues(s, r, byOrdinal, items, n, answer) && answer.nextCursor != []
    ensures |answer.items| == r.limit && 0 < n + r.limit < |items|
    ensures items[..n] + answer.items == items[..n + r.limit]
    ensures answer.nextCursor == CursorAfter(s, r, items[n + r.limit - 1], byOrdinal)
  {
    hide CursorAfter;
  }

  /**
   When the cursors between them are carried, the answers of a walk list the catalog in order, as many rows as they
   hold; the last has no next cursor exactly when that is all of them; and no walk is longer than that takes.
   */
  lemma WalkListsAll(s: Service, r: Cursor.CursorRequest, byOrdinal: bool, items: seq<Item>, answers: seq<Listing>)
    requires Usable(s) && Catalog(items, byOrdinal) && Follows(s, r, byOrdinal, items, answers)
    requires EndsCarried(items, byOrdinal, r.limit, |answers|)
    ensures AllItems(answers) == First(items, Rows(r.limit, |answers|))
    ensures answers[|answers| - 1].nextCursor == [] <==> |items| <= Rows(r.limit, |answers|)
    ensures |answers| == 1 || Rows(r.limit, |answers| - 1) < |items|
  {
    hide EndsCarried;
    hide ListingFor;
    hide CursorAfter;
    hide Catalog;
    hide Carried;
    hide Usable;
    hide Rows;
    hide Continues;
    hide First;
    hide Follows;
    hide AllItems;
    FollowsSize(s, r, byOrdinal, items, answers);
    WalkIsSlices(s, r, byOrdinal, items, answers);
    var last := |answers| - 1;
    LastAnswer(s, r, byOrdinal, items, |AllItems(answers[..last])|, answers[last]);
    AllItemsLast(answers);
    OneMorePage(r.limit, |answers|);
    OneMorePage(r.limit, last);
  }

  lemma FollowsSize(s: Service, r: Cursor.CursorRequest, byOrdinal: bool, items: seq<Item>, answers: seq<Listing>)
    requires Follows(s, r, byOrdinal, items, answers)
    ensures r.limit > 0 && answers != []
  {
  }

  lemma AllItemsLast(answers: seq<Listing>)
    requires answers != []
    ensures AllItems(answers) == AllItems(answers[..|answers| - 1]) + answers[|answers| - 1].items
  {
  }

  lemma LastAnswer(s: Service, r: Cursor.CursorRequest, byOrdinal: bool, items: seq<Item>, n: nat, answer: Listing)
    requires Usable(s) && Catalog(items, byOrdinal) && n <= |items| && r.limit > 0
    requires Continues(s, r, byOrdinal, items, n, answer)
    ensures items[..n] + answer.items == First(items, n + r.limit)
    ensures answer.nextCursor == [] <==> |items| <= n + r.limit
  {
    hide CursorAfter;
    hide Catalog;
    hide Usable;
    var size := |answer.items|;
    if 0 < n + size < |items| {
      KeyAt(items, byOrdinal, n + size - 1);
      CursorLeadsBack(s, r, items[n + size - 1], byOrdinal);
    }
    assert items[..n] + items[n..n + size] == items[..n + size];
  }

  /** No page of a walk is empty unless the catalog is, and all but the last are full. */
  lemma NoEmptyPage(s: Service, r: Cursor.CursorRequest, byOrdinal: bool, items: seq<Item>, answers: seq<Listing>,
                    i: nat)
    requires Usable(s) && Catalog(items, byOrdinal) && Follows(s, r, byOrdinal, items, answers) && i < |answers|
    requires EndsCarried(items, byOrdinal, r.limit, i + 1)
    ensures items != [] ==> answers[i].items != []
    ensures i < |answers| - 1 ==> |answers[i].items| == r.limit
  {
    hide ListingFor;
    hide CursorAfter;
    hide Catalog;
    hide Carried;
    hide Usable;
    hide Rows;
    WalkPrefix(s, r, byOrdinal, items, answers, i + 1);
    WalkIsSlices(s, r, byOrdinal, items, answers[..i + 1]);
    assert answers[..i + 1][i] == answers[i];
  }

  lemma WalkPrefix(s: Service, r: Cursor.CursorRequest, byOrdinal: bool, items: seq<Item>, answers: seq<Listing>,
                   n: nat)
    requires Follows(s, r, byOrdinal, items, answers) && 0 < n <= |answers|
    ensures Follows(s, r, byOrdinal, items, answers[..n])
  {
    hide ListingFor;
  }

  /** No walk goes on for ever: another page means as many more rows. */
  lemma WalkIsBounded(s: Service, r: Cursor.CursorRequest, byOrdinal: bool, items: seq<Item>, answers: seq<Listing>)
    requires Usable(s) && Catalog(items, byOrdinal) && Follows(s, r, byOrdinal, items, answers)
    requires EndsCarried(items, byOrdinal, r.limit, |answers|)
    ensures r.limit * (|answers| - 1) <= |items|
  {
    hide Follows;
    hide Continues;
    WalkIsSlices(s, r, byOrdinal, items, answers);
  }

  // ---- The exact condition ----

  /** The walk has listed the catalog as far as its answers reach, and its next cursor is answered. */
  ghost predicate GoesWell(s: Service, r: Cursor.CursorRequest, byOrdinal: bool, items: seq<Item>,
                           answers: seq<Listing>)
    requires Follows(s, r, byOrdinal, items, answers)
  {
    var next := answers[|answers| - 1].nextCursor;
    && AllItems(answers) == First(items, Rows(r.limit, |answers|))
    && (next != [] ==> ListingFor(s, r, byOrdinal, items, next).Ok?)
  }

  /** After the answers so far: the cursor of the last, and how the answer to it extends the walk. */
  lemma WalkGoesOn(s: Service, r: Cursor.CursorRequest, byOrdinal: bool, items: seq<Item>, answers: seq<Listing>)
    requires Usable(s) && Catalog(items, byOrdinal) && Follows(s, r, byOrdinal, items, answers)
    requires EndsCarried(items, byOrdinal, r.limit, |answers|)
    ensures var n, next := Rows(r.limit, |answers|), answers[|answers| - 1].nextCursor;
      && AllItems(answers) == First(items, n)
      && (next != [] <==> n < |items|)
      && (next != [] ==> 0 < n && next == CursorAfter(s, r, items[n - 1], byOrdinal))
  {
    hide EndsCarried;
    hide ListingFor;
    hide CursorAfter;
    hide Catalog;
    hide Carried;
    hide Usable;
    hide Rows;
    hide Continues;
    hide First;
    hide Follows;
    FollowsSize(s, r, byOrdinal, items, answers);
    WalkListsAll(s, r, byOrdinal, items, answers);
    WalkIsSlices(s, r, byOrdinal, items, answers);
    OneMorePage(r.limit, |answers|);
    var last := |answers| - 1;
    if answers[last].nextCursor != [] {
      MoreFollows(s, r, byOrdinal, items, |AllItems(answers[..last])|, answers[last]);
    }
  }

  lemma OneMoreAnswer(s: Service, r: Cursor.CursorRequest, byOrdinal: bool, items: seq<Item>, answers: seq<Listing>,
                      answer: Listing)
    requires Follows(s, r, byOrdinal, items, answers) && answers[|answers| - 1].nextCursor != []
    requires ListingFor(s, r, byOrdinal, items, answers[|answers| - 1].nextCursor) == Ok(answer)
    ensures Follows(s, r, byOrdinal, items, answers + [answer])
    ensures AllItems(answers + [answer]) == AllItems(answers) + answer.items
  {
    hide ListingFor;
    var more := answers + [answer];
    assert more[..|answers|] == answers && more[|answers|] == answer;
    assert forall i | 0 <= i < |answers| :: more[i] == answers[i];
  }

  /** A walk of so many pages, when there are rows for them. */
  lemma {:induction false} SomeWalk(s: Service, r: Cursor.CursorRequest, byOrdinal: bool, items: seq<Item>, pages: nat)
    returns (answers: seq<Listing>)
    requires Usable(s) && Catalog(items, byOrdinal) && r.limit > 0
    requires 0 < pages && (pages == 1 || Rows(r.limit, pages - 1) < |items|)
    requires EndsCarried(items, byOrdinal, r.limit, pages)
    ensures Follows(s, r, byOrdinal, items, answers) && |answers| == pages
    decreases pages
  {
    hide ListingFor;
    hide CursorAfter;
    hide Catalog;
    hide Carried;
    hide Usable;
    hide Rows;
    hide Follows;
    if pages == 1 {
      answers := FirstAnswer(s, r, byOrdinal, items);
    } else {
      OneMorePage(r.limit, pages - 1);
      answers := SomeWalk(s, r, byOrdinal, items, pages - 1);
      WalkGoesOn(s, r, byOrdinal, items, answers);
      FollowsSize(s, r, byOrdinal, items, answers);
      AnswerContinues(s, r, byOrdinal, items, Rows(r.limit, pages - 1));
      var answer := ListingFor(s, r, byOrdinal, items, answers[|answers| - 1].nextCursor).value;
      OneMoreAnswer(s, r, byOrdinal, items, answers, answer);
      answers := answers + [answer];
    }
  }

  lemma FirstAnswer(s: Service, r: Cursor.CursorRequest, byOrdinal: bool, items: seq<Item>)
    returns (answers: seq<Listing>)
    requires Usable(s) && Catalog(items, byOrdinal) && r.limit > 0
    ensures Follows(s, r, byOrdinal, items, answers) && |answers| == 1
  {
    hide ListingFor;
    hide Catalog;
    hide Usable;
    AnswerContinues(s, r, byOrdinal, items, 0);
    answers := [ListingFor(s, r, byOrdinal, items, []).value];
  }

  /** When all walks go well, the cursors after their pages are carried, one after the other. */
  lemma {:induction false} WellMeansCarried(s: Service, r: Cursor.CursorRequest, byOrdinal: bool, items: seq<Item>,
                                            pages: nat)
    requires Usable(s) && Catalog(items, byOrdinal) && r.limit > 0
    requires forall answers | Follows(s, r, byOrdinal, items, answers) :: GoesWell(s, r, byOrdinal, items, answers)
    ensures EndsCarried(items, byOrdinal, r.limit, pages)
    decreases pages
  {
    hide ListingFor;
    hide CursorAfter;
    hide Catalog;
    hide Carried;
    hide Usable;
    hide Rows;
    hide Follows;
    hide GoesWell;
    if pages > 0 {
      var k := pages - 1;
      WellMeansCarried(s, r, byOrdinal, items, k);
      OneMorePage(r.limit, k);
      if 0 < Rows(r.limit, k) < |items| {
        if k > 1 { OneMorePage(r.limit, k - 1); }
        var answers := SomeWalk(s, r, byOrdinal, items, k);
        NextIsCarried(s, r, byOrdinal, items, answers);
      } else {
        AtTheEnds(items, byOrdinal, Rows(r.limit, k));
      }
    }
  }

  lemma AtTheEnds(items: seq<Item>, byOrdinal: bool, n: nat)
    requires n == 0 || n >= |items|
    ensures Carried(items, byOrdinal, n)
  {
  }

  lemma NextIsCarried(s: Service, r: Cursor.CursorRequest, byOrdinal: bool, items: seq<Item>, answers: seq<Listing>)
    requires Usable(s) && Catalog(items, byOrdinal) && Follows(s, r, byOrdinal, items, answers)
    requires EndsCarried(items, byOrdinal, r.limit, |answers|) && 0 < Rows(r.limit, |answers|) < |items|
    requires forall more | Follows(s, r, byOrdinal, items, more) :: GoesWell(s, r, byOrdinal, items, more)
    ensures Carried(items, byOrdinal, Rows(r.limit, |answers|))
  {
    hide ListingFor;
    hide CursorAfter;
    hide Catalog;
    hide Carried;
    hide Usable;
    hide Rows;
    hide Follows;
    FollowsSize(s, r, byOrdinal, items, answers);
    var n := Rows(r.limit, |answers|);
    WalkGoesOn(s, r, byOrdinal, items, answers);
    CursorLeadsOn(s, r, items, byOrdinal, n);
    assert GoesWell(s, r, byOrdinal, items, answers);
    var answer := ListingFor(s, r, byOrdinal, items, answers[|answers| - 1].nextCursor).value;
    OneMoreAnswer(s, r, byOrdinal, items, answers, answer);
    assert GoesWell(s, r, byOrdinal, items, answers + [answer]);
    OneMorePage(r.limit, |answers| + 1);
    assert (items[..n] + answer.items)[n] == items[n];
  }

  /**
   Every walk lists the catalog in order and goes on until it is done, exactly when every cursor after a full page
   is carried.
   */
  lemma WalksAreExact(s: Service, r: Cursor.CursorRequest, byOrdinal: bool, items: seq<Item>)
    requires Usable(s) && Catalog(items, byOrdinal) && r.limit > 0
    ensures (forall k: nat :: Carried(items, byOrdinal, Rows(r.limit, k)))
            <==> forall answers | Follows(s, r, byOrdinal, items, answers) ::
                   GoesWell(s, r, byOrdinal, items, answers)
  {
    hide ListingFor;
    hide CursorAfter;
    hide Catalog;
    hide Carried;
    hide Usable;
    hide Rows;
    hide Follows;
    hide First;
    if forall k: nat :: Carried(items, byOrdinal, Rows(r.limit, k)) {
      forall answers: seq<Listing> | Follows(s, r, byOrdinal, items, answers)
        ensures GoesWell(s, r, byOrdinal, items, answers)
      {
        FollowsSize(s, r, byOrdinal, items, answers);
        WalkGoesOn(s, r, byOrdinal, items, answers);
        if answers[|answers| - 1].nextCursor != [] {
          AnswerContinues(s, r, byOrdinal, items, Rows(r.limit, |answers|));
        }
      }
    }
    if forall answers | Follows(s, r, byOrdinal, items, answers) :: GoesWell(s, r, byOrdinal, items, answers) {
      forall k: nat ensures Carried(items, byOrdinal, Rows(r.limit, k)) {
        WellMeansCarried(s, r, byOrdinal, items, k + 1);
      }
    }
  }

  /** Two names that are not UTF-8, on pages of one row: the first comes again for ever. */
  lemma WalkForEver(s: Service, r: Cursor.CursorRequest, pages: nat) returns (answers: seq<Listing>)
    requires Usable(s) && r.limit == 1 && pages > 0
    ensures var items := [Item([0xFF], 0, []), Item([0xFF, 0xFF], 0, [])];
      && Catalog(items, false)
      && Follows(s, r, false, items, answers) && |answers| == pages
      && forall i | 0 <= i < pages :: answers[i].items == [items[0]]
  {
    hide Cursor.DecodeCursor;
    hide Cursor.EncodeCursor;
    hide Cursor.Fingerprint;
    hide Usable;
    var items := [Item([0xFF], 0, []), Item([0xFF, 0xFF], 0, [])];
    assert items[1].name[1..] == [0xFF] && items[0].name[1..] == [];
    assert Catalog(items, false);
    var cursor := CursorAfter(s, r, items[0], false);
    var page := Listing([items[0]], cursor);
    NoCursor(s, r, false);
    PastTheStart(items, false);
    assert ListingFor(s, r, false, items, []) == Ok(page);
    CursorLeadsBack(s, r, items[0], false);
    assert cursor != [];
    assert ListingFor(s, r, false, items, cursor) == Ok(page) by { FirstComesAgain(s, r, items); }
    answers := seq(pages, _ => page);
  }

  lemma FirstComesAgain(s: Service, r: Cursor.CursorRequest, items: seq<Item>)
    requires Usable(s) && r.limit == 1 && Catalog(items, false) && |items| == 2
    requires items[0].name == [0xFF] && items[1].name == [0xFF, 0xFF]
    ensures ListingFor(s, r, false, items, CursorAfter(s, r, items[0], false))
            == Ok(Listing([items[0]], CursorAfter(s, r, items[0], false)))
  {
    hide Cursor.DecodeCursor;
    hide Cursor.EncodeCursor;
    hide Catalog;
    Cursor.InvalidNameComesAgain(s.digest, s.read, r);
    var p := Cursor.DecodeCursor(s.digest, s.read, CursorAfter(s, r, items[0], false), r, false).value;
    assert p.lastName == REPLACEMENT;
    assert Past(items[0], false, p) && Past(items[1], false, p);
    ItemsPastAre(items, false, p, 0);
    assert items[..1] == [items[0]];
  }
}
