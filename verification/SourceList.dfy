/** Listing the data sources, page by page, while the registry may change. */
module SourceList {
  import opened Common
  import opened Text
  import opened Order
  import opened Paging
  import Base64
  import Connection
  import Cursor
  import Reference
  import Repository

  datatype ListError = InvalidRequest | InvalidCursor | AccessDenied

  /** What the service is configured with; lower-casing, the digest and the JSON reader are functions. */
  datatype Service = Service(
    digest: Cursor.Digest,
    read: Cursor.Reader,
    lower: Bytes -> Bytes,
    relational: set<Bytes>,
    maxLimit: nat)

  ghost predicate Usable(s: Service) {
    s.maxLimit > 0 && Cursor.DigestSized(s.digest) && Cursor.ReadsBack(s.read)
  }

  datatype Request = Request(search: Bytes, limit: Option<int>, cursor: Bytes)

  datatype DataSource = DataSource(id: Bytes, kind: Bytes, isRelational: bool)

  datatype SourcePage = SourcePage(sources: seq<DataSource>, nextCursor: Bytes)

  /** effectiveLimit: the maximum, unless a limit within it is asked for. */
  function EffectiveLimit(value: Option<int>, maxLimit: nat): (limit: Option<nat>)
    ensures limit.Some? && maxLimit > 0 ==> 1 <= limit.value <= maxLimit
    ensures limit.None? <==> value.Some? && !(1 <= value.value <= maxLimit)
  {
    match value
    case None => Some(maxLimit)
    case Some(n) => if n <= 0 || n > maxLimit then None else Some(n)
  }

  predicate Contains(s: Bytes, part: Bytes) {
    Reference.StartsWith(s, part) || (s != [] && Contains(s[1..], part))
  }

  /** The part is found at some place in the string. */
  ghost predicate Occurs(part: Bytes, s: Bytes) {
    exists i :: 0 <= i <= |s| && part <= s[i..]
  }

  lemma {:induction false} ContainsIs(s: Bytes, part: Bytes)
    ensures Contains(s, part) <==> Occurs(part, s)
  {
    assert s[0..] == s;
    if !Reference.StartsWith(s, part) && s != [] {
      var rest := s[1..];
      ContainsIs(rest, part);
      if Occurs(part, rest) {
        var i :| 0 <= i <= |rest| && part <= rest[i..];
        assert rest[i..] == s[i + 1..];
      }
      if Occurs(part, s) {
        var i :| 0 <= i <= |s| && part <= s[i..];
        assert i > 0 && s[i..] == rest[i - 1..];
      }
    }
  }

  /** An id that a search asks for: case aside, the search is found in it. */
  ghost predicate Wanted(s: Service, search: Bytes, id: Bytes) {
    s.lower(search) == [] || Occurs(s.lower(search), s.lower(id))
  }

  predicate Matches(s: Service, search: Bytes, id: Bytes) {
    s.lower(search) == [] || Contains(s.lower(id), s.lower(search))
  }

  function SourceOf(s: Service, d: Connection.Definition): DataSource {
    DataSource(d.id, d.kind, d.kind in s.relational)
  }

  // ---- What a request returns ----

  /** The ids that match, in order. */
  ghost function MatchingIds(s: Service, search: Bytes, defs: Connection.Definitions): (ids: seq<Bytes>)
    ensures Increasing(ids)
    ensures forall id :: id in ids <==> id in defs && Matches(s, search, id)
  {
    SortedOf(set id | id in defs && Matches(s, search, id))
  }

  function CursorRequestFor(request: Request, limit: nat): Cursor.CursorRequest {
    Cursor.CursorRequest(Ascii("data_source.list"), [], [], [], limit, request.search, false)
  }

  function PositionOf(cursor: Bytes, payload: Cursor.Payload): Option<Bytes> {
    if cursor == [] then None else Some(payload.lastName)
  }

  function NextCursor(s: Service, r: Cursor.CursorRequest, next: Option<Bytes>): Bytes {
    match next
    case Some(id) => Cursor.EncodeCursor(s.digest, r, id, 0)
    case None => []
  }

  ghost function SourcesFor(s: Service, defs: Connection.Definitions, request: Request, allowed: bool)
    : Result<SourcePage, ListError>
    requires s.maxLimit > 0 && Connection.Keyed(defs)
  {
    var limit := EffectiveLimit(request.limit, s.maxLimit);
    if limit.None? then Err(InvalidRequest)
    else
      var r := CursorRequestFor(request, limit.value);
      match Cursor.DecodeCursor(s.digest, s.read, request.cursor, r, false)
      case None => Err(InvalidCursor)
      case Some(payload) =>
        if !allowed then Err(AccessDenied)
        else
          var ids := MatchingIds(s, request.search, defs);
          var page := PageOf(ids, PositionOf(request.cursor, payload), limit.value);
          Ok(SourcePage(Rendered(s, defs, page.keys), NextCursor(s, r, page.next)))
  }

  ghost function Rendered(s: Service, defs: Connection.Definitions, ids: seq<Bytes>): (sources: seq<DataSource>)
    ensures |sources| == |ids|
    ensures forall i | 0 <= i < |ids| && ids[i] in defs :: sources[i] == SourceOf(s, defs[ids[i]])
  {
    seq(|ids|, i requires 0 <= i < |ids| =>
      if ids[i] in defs then SourceOf(s, defs[ids[i]]) else DataSource(ids[i], [], false))
  }

  /** A cursor is good for one search and one limit, up to collisions of the digest. */
  lemma CursorIsForOneSearch(s: Service, cursor: Bytes, request: Request, limit: nat, other: Request, otherLimit: nat)
    requires cursor != [] && ValidUtf8(request.search) && ValidUtf8(other.search)
    requires Cursor.DecodeCursor(s.digest, s.read, cursor, CursorRequestFor(request, limit), false).Some?
    requires Cursor.DecodeCursor(s.digest, s.read, cursor, CursorRequestFor(other, otherLimit), false).Some?
    requires var r, q := CursorRequestFor(request, limit), CursorRequestFor(other, otherLimit);
      s.digest(Cursor.MarshalRequest(r)) == s.digest(Cursor.MarshalRequest(q)) ==>
        Cursor.MarshalRequest(r) == Cursor.MarshalRequest(q)
    ensures request.search == other.search && limit == otherLimit
  {
    hide Cursor.DecodeCursor;
    hide Cursor.MarshalRequest;
    PlainIsValid(Ascii("data_source.list"));
    Cursor.CursorsBind(s.digest, s.read, cursor, CursorRequestFor(request, limit), CursorRequestFor(other, otherLimit),
                       false);
  }

  // ---- The operation ----

  function IdsOf(sources: seq<DataSource>): (ids: seq<Bytes>)
    ensures |ids| == |sources| && forall i | 0 <= i < |ids| :: ids[i] == sources[i].id
  {
    seq(|sources|, i requires 0 <= i < |sources| => sources[i].id)
  }

  /** Sources of these definitions, in the order of their ids. */
  ghost predicate Sorted(s: Service, defs: Connection.Definitions, sources: seq<DataSource>) {
    && Increasing(IdsOf(sources))
    && forall i | 0 <= i < |sources| :: sources[i].id in defs && sources[i] == SourceOf(s, defs[sources[i].id])
  }

  /** Inserts a source before those with greater ids. */
  function InsertSource(sources: seq<DataSource>, x: DataSource): seq<DataSource> {
    if sources == [] || Less(sources[|sources| - 1].id, x.id) then sources + [x]
    else InsertSource(sources[..|sources| - 1], x) + [sources[|sources| - 1]]
  }

  lemma {:induction false} InsertSourceIds(sources: seq<DataSource>, x: DataSource)
    requires x.id !in IdsOf(sources)
    ensures IdsOf(InsertSource(sources, x)) == Insert(IdsOf(sources), x.id)
    ensures forall y :: y in InsertSource(sources, x) <==> y in sources || y == x
    decreases |sources|
  {
    hide Less;
    var ids := IdsOf(sources);
    if sources == [] || Less(sources[|sources| - 1].id, x.id) {
      assert IdsOf(sources + [x]) == ids + [x.id];
    } else {
      var init, last := sources[..|sources| - 1], sources[|sources| - 1];
      assert IdsOf(init) == ids[..|ids| - 1];
      assert last.id == ids[|ids| - 1] && last.id in ids;
      InsertSourceIds(init, x);
      assert sources == init + [last];
      assert IdsOf(InsertSource(init, x) + [last]) == IdsOf(InsertSource(init, x)) + [last.id];
    }
  }

  /** sort.Slice by id; the ids are distinct. */
  method SortSources(sources: seq<DataSource>) returns (r: seq<DataSource>)
    requires forall i, j | 0 <= i < j < |sources| :: sources[i].id != sources[j].id
    ensures Increasing(IdsOf(r))
    ensures forall x :: x in r <==> x in sources
  {
    hide Less;
    hide InsertSource;
    hide Insert;
    r := [];
    var i := 0;
    while i < |sources|
      invariant 0 <= i <= |sources|
      invariant Increasing(IdsOf(r))
      invariant forall x :: x in r <==> x in sources[..i]
    {
      var x := sources[i];
      assert x.id !in IdsOf(r) by { NotThere(sources, i, r); }
      InsertSourceIds(r, x);
      InsertSorted(IdsOf(r), x.id);
      assert sources[..i + 1] == sources[..i] + [x];
      r := InsertSource(r, x);
      i := i + 1;
    }
    assert sources[..i] == sources;
  }

  lemma NotThere(sources: seq<DataSource>, i: nat, r: seq<DataSource>)
    requires i < |sources| && forall j, k | 0 <= j < k < |sources| :: sources[j].id != sources[k].id
    requires forall x :: x in r <==> x in sources[..i]
    ensures sources[i].id !in IdsOf(r)
  {
    forall k | 0 <= k < |r| ensures r[k].id != sources[i].id {
      assert r[k] in sources[..i];
    }
  }

  /** sort.Search for the first id after the position. */
  method SearchAfter(sources: seq<DataSource>, position: Bytes) returns (start: nat)
    requires Increasing(IdsOf(sources))
    ensures start <= |sources|
    ensures IdsOf(sources)[start..] == After(IdsOf(sources), Some(position))
  {
    hide Less;
    hide After;
    var i, j := 0, |sources|;
    ghost var ids := IdsOf(sources);
    while i < j
      invariant 0 <= i <= j <= |sources|
      invariant forall k | 0 <= k < i :: !Less(position, ids[k])
      invariant forall k | j <= k < |sources| :: Less(position, ids[k])
      decreases j - i
    {
      var h := (i + j) / 2;
      if !Less(position, sources[h].id) {
        forall k | 0 <= k <= h ensures !Less(position, ids[k]) {
          if k < h && Less(position, ids[k]) { LessTransitive(position, ids[k], ids[h]); }
        }
        i := h + 1;
      } else {
        forall k | h <= k < |sources| ensures Less(position, ids[k]) {
          if h < k { LessTransitive(position, ids[h], ids[k]); }
        }
        j := h;
      }
    }
    SplitIsAfter(ids, position, i);
    return i;
  }

  lemma {:induction false} SplitIsAfter(ids: seq<Bytes>, position: Bytes, n: nat)
    requires n <= |ids|
    requires forall k | 0 <= k < n :: !Less(position, ids[k])
    requires forall k | n <= k < |ids| :: Less(position, ids[k])
    ensures After(ids, Some(position)) == ids[n..]
    decreases n
  {
    hide Less;
    if n > 0 {
      SplitIsAfter(ids[1..], position, n - 1);
      assert ids[1..][n - 1..] == ids[n..];
    }
  }

  /**
   The page that answers a request, at a position when there is a cursor: the registered sources that are wanted,
   from there on, in the order of their ids, as they are registered. Those left out come after the page, which is
   full, and have a cursor on its last id.
   */
  ghost predicate Lists(s: Service, defs: Connection.Definitions, request: Request, limit: nat, position: Bytes,
                        page: SourcePage)
  {
    var n := |page.sources|;
    && n <= limit
    && (forall i, j | 0 <= i < j < n :: Less(page.sources[i].id, page.sources[j].id))
    && (forall i | 0 <= i < n ::
          var d := page.sources[i];
          d.id in defs && d.kind == defs[d.id].kind && (d.isRelational <==> d.kind in s.relational))
    && (forall id :: id in IdsOf(page.sources) <==>
                     && id in defs && Wanted(s, request.search, id)
                     && (request.cursor != [] ==> Less(position, id))
                     && (page.nextCursor != [] && n > 0 ==>
                           id == page.sources[n - 1].id || Less(id, page.sources[n - 1].id)))
    && (page.nextCursor != [] ==>
          && n == limit > 0
          && page.nextCursor
             == Cursor.EncodeCursor(s.digest, CursorRequestFor(request, limit), page.sources[n - 1].id, 0)
          && exists id :: id in defs && Wanted(s, request.search, id) && Less(page.sources[n - 1].id, id))
  }

  method ListDataSources(s: Service, registry: Repository.Manager, request: Request, allowed: bool)
    returns (r: Result<SourcePage, ListError>)
    requires s.maxLimit > 0 && Connection.Keyed(registry.definitions)
    ensures r == SourcesFor(s, registry.definitions, request, allowed)
    ensures var limit := if request.limit.Some? then request.limit.value else s.maxLimit;
      && (r == Err(InvalidRequest) <==> !(1 <= limit <= s.maxLimit))
      && (1 <= limit <= s.maxLimit ==>
            var asked := CursorRequestFor(request, limit);
            var payload := Cursor.DecodeCursor(s.digest, s.read, request.cursor, asked, false);
            && (r == Err(InvalidCursor) <==> payload.None?)
            && (r == Err(AccessDenied) <==> payload.Some? && !allowed)
            && (r.Ok? <==> payload.Some? && allowed)
            && (r.Ok? ==> Lists(s, registry.definitions, request, limit, payload.value.lastName, r.value)))
  {
    hide *;
    Answered(s, registry.definitions, request, allowed);
    Refused(s, registry.definitions, request, allowed);
    var limit := EffectiveLimit(request.limit, s.maxLimit);
    if limit.None? {
      return Err(InvalidRequest);
    }
    var cursorRequest := CursorRequestFor(request, limit.value);
    var payload := Cursor.DecodeCursor(s.digest, s.read, request.cursor, cursorRequest, false);
    if payload.None? {
      return Err(InvalidCursor);
    }
    if !allowed {
      return Err(AccessDenied);
    }
    var definitions := registry.List();
    var sources := FilterSources(s, request.search, registry.definitions, definitions);
    DropSources(s, registry.definitions, sources, 0);
    if request.cursor != [] {
      var start := SearchAfter(sources, payload.value.lastName);
      DropSources(s, registry.definitions, sources, start);
      sources := sources[start..];
    }
    ghost var rest := sources;
    var hasMore := |sources| > limit.value;
    if hasMore {
      sources := sources[..limit.value];
    }
    PageIsTaken(s, registry.definitions, request, payload.value, limit.value, rest);
    var nextCursor := [];
    if hasMore {
      nextCursor := Cursor.EncodeCursor(s.digest, cursorRequest, sources[|sources| - 1].id, 0);
    }
    return Ok(SourcePage(sources, nextCursor));
  }

  lemma Answered(s: Service, defs: Connection.Definitions, request: Request, allowed: bool)
    requires s.maxLimit > 0 && Connection.Keyed(defs)
    ensures var r := SourcesFor(s, defs, request, allowed);
      var limit := if request.limit.Some? then request.limit.value else s.maxLimit;
      && (r == Err(InvalidRequest) <==> !(1 <= limit <= s.maxLimit))
      && (1 <= limit <= s.maxLimit ==>
            var asked := CursorRequestFor(request, limit);
            var payload := Cursor.DecodeCursor(s.digest, s.read, request.cursor, asked, false);
            && (r == Err(InvalidCursor) <==> payload.None?)
            && (r == Err(AccessDenied) <==> payload.Some? && !allowed)
            && (r.Ok? <==> payload.Some? && allowed)
            && (r.Ok? ==> Lists(s, defs, request, limit, payload.value.lastName, r.value)))
  {
    hide Cursor.DecodeCursor;
    hide CursorRequestFor;
    hide Lists;
    hide Rendered;
    hide MatchingIds;
    hide PageOf;
    hide NextCursor;
    hide Connection.ValidDefinition;
    var limit := if request.limit.Some? then request.limit.value else s.maxLimit;
    if 1 <= limit <= s.maxLimit {
      var payload := Cursor.DecodeCursor(s.digest, s.read, request.cursor, CursorRequestFor(request, limit), false);
      if payload.Some? {
        PageLists(s, defs, request, limit, payload.value);
      }
    }
  }

  lemma PageLists(s: Service, defs: Connection.Definitions, request: Request, limit: nat, payload: Cursor.Payload)
    requires Connection.Keyed(defs) && limit > 0
    ensures var page := PageOf(MatchingIds(s, request.search, defs), PositionOf(request.cursor, payload), limit);
      Lists(s, defs, request, limit, payload.lastName,
            SourcePage(Rendered(s, defs, page.keys), NextCursor(s, CursorRequestFor(request, limit), page.next)))
  {
    hide Less;
    hide Matches;
    hide Wanted;
    hide Increasing;
    hide Cursor.EncodeCursor;
    hide CursorRequestFor;
    hide MatchingIds;
    hide PageOf;
    hide Connection.ValidDefinition;
    var ids, position := MatchingIds(s, request.search, defs), PositionOf(request.cursor, payload);
    var page := PageOf(ids, position, limit);
    var sources := Rendered(s, defs, page.keys);
    PageSplits(ids, position, limit);
    PageLength(ids, position, limit);
    assert IdsOf(sources) == page.keys by { RenderedIds(s, defs, page.keys, ids); }
    forall id ensures Matches(s, request.search, id) <==> Wanted(s, request.search, id) {
      MatchesIs(s, request.search, id);
    }
    assert forall i | 0 <= i < |sources| :: sources[i].id == IdsOf(sources)[i] && sources[i].id in page.keys;
    IncreasingNeighbours(page.keys);
    if page.next.Some? {
      CursorIsThere(s, CursorRequestFor(request, limit), page.next.value);
    }
  }

  lemma MatchesIs(s: Service, search: Bytes, id: Bytes)
    ensures Matches(s, search, id) <==> Wanted(s, search, id)
  {
    ContainsIs(s.lower(id), s.lower(search));
  }

  lemma IncreasingNeighbours(ids: seq<Bytes>)
    requires Increasing(ids)
    ensures forall i, j | 0 <= i < j < |ids| :: Less(ids[i], ids[j])
  {
  }

  lemma RenderedIds(s: Service, defs: Connection.Definitions, keys: seq<Bytes>, ids: seq<Bytes>)
    requires Connection.Keyed(defs) && forall k | k in keys :: k in defs
    ensures IdsOf(Rendered(s, defs, keys)) == keys
  {
    hide Connection.ValidDefinition;
    assert forall i | 0 <= i < |keys| :: keys[i] in keys;
  }

  lemma CursorIsThere(s: Service, r: Cursor.CursorRequest, id: Bytes)
    ensures Cursor.EncodeCursor(s.digest, r, id, 0) != []
  {
    hide Cursor.MarshalPayload;
    var data := Cursor.MarshalPayload(Cursor.PayloadFor(s.digest, r, id, 0));
    Cursor.PayloadIsLong(Cursor.PayloadFor(s.digest, r, id, 0));
    Base64.EncodedLength(data);
  }

  /** These sources are of these definitions. */
  ghost predicate AllFrom(s: Service, defs: Connection.Definitions, sources: seq<DataSource>) {
    forall i | 0 <= i < |sources| :: sources[i].id in defs && sources[i] == SourceOf(s, defs[sources[i].id])
  }

  lemma DropSources(s: Service, defs: Connection.Definitions, sources: seq<DataSource>, start: nat)
    requires Sorted(s, defs, sources) && start <= |sources|
    ensures Increasing(IdsOf(sources)) && AllFrom(s, defs, sources) && AllFrom(s, defs, sources[start..])
    ensures IdsOf(sources[start..]) == IdsOf(sources)[start..]
  {
    hide Less;
  }

  lemma Refused(s: Service, defs: Connection.Definitions, request: Request, allowed: bool)
    requires s.maxLimit > 0 && Connection.Keyed(defs)
    ensures var limit := EffectiveLimit(request.limit, s.maxLimit);
      && (limit.None? ==> SourcesFor(s, defs, request, allowed) == Err(InvalidRequest))
      && (limit.Some? ==>
            && limit.value > 0
            && var r := CursorRequestFor(request, limit.value);
            && var payload := Cursor.DecodeCursor(s.digest, s.read, request.cursor, r, false);
            && (payload.None? ==> SourcesFor(s, defs, request, allowed) == Err(InvalidCursor))
            && (payload.Some? && !allowed ==> SourcesFor(s, defs, request, allowed) == Err(AccessDenied)))
  {
    hide Cursor.DecodeCursor;
    hide CursorRequestFor;
  }

  lemma PageIsTaken(s: Service, defs: Connection.Definitions, request: Request, payload: Cursor.Payload, limit: nat,
                    rest: seq<DataSource>)
    requires s.maxLimit > 0 && Connection.Keyed(defs) && EffectiveLimit(request.limit, s.maxLimit) == Some(limit)
    requires var r := CursorRequestFor(request, limit);
      Cursor.DecodeCursor(s.digest, s.read, request.cursor, r, false) == Some(payload)
    requires AllFrom(s, defs, rest)
    requires IdsOf(rest) == if request.cursor == [] then MatchingIds(s, request.search, defs)
                            else After(MatchingIds(s, request.search, defs), Some(payload.lastName))
    ensures SourcesFor(s, defs, request, true) == Ok(
              if |rest| > limit then
                SourcePage(rest[..limit],
                           Cursor.EncodeCursor(s.digest, CursorRequestFor(request, limit), rest[limit - 1].id, 0))
              else SourcePage(rest, []))
  {
    hide Cursor.DecodeCursor;
    hide Cursor.EncodeCursor;
    hide CursorRequestFor;
    hide SourceOf;
    hide Less;
    hide Matches;
    hide Connection.ValidDefinition;
    hide MatchingIds;
    hide Rendered;
    hide Connection.Keyed;
    hide EffectiveLimit;
    hide AllFrom;
    var ids := MatchingIds(s, request.search, defs);
    var position := PositionOf(request.cursor, payload);
    assert After(ids, position) == IdsOf(rest);
    TakenPage(s, defs, ids, position, limit, rest);
  }

  lemma TakenPage(s: Service, defs: Connection.Definitions, ids: seq<Bytes>, position: Option<Bytes>, limit: nat,
                  rest: seq<DataSource>)
    requires limit > 0 && AllFrom(s, defs, rest) && After(ids, position) == IdsOf(rest)
    ensures var page := PageOf(ids, position, limit);
      && Rendered(s, defs, page.keys) == (if |rest| > limit then rest[..limit] else rest)
      && page.next == if |rest| > limit then Some(rest[limit - 1].id) else None
  {
    hide SourceOf;
    hide After;
    var taken := if |rest| > limit then rest[..limit] else rest;
    assert PageOf(ids, position, limit).keys == IdsOf(taken);
    assert Rendered(s, defs, IdsOf(taken)) == taken;
  }

  /** The matching sources of the registry's list, sorted. */
  method FilterSources(s: Service, search: Bytes, ghost defs: Connection.Definitions,
                       definitions: seq<Connection.Definition>)
    returns (sources: seq<DataSource>)
    requires Connection.Keyed(defs) && definitions == Connection.SortedDefinitions(defs)
    ensures Sorted(s, defs, sources) && IdsOf(sources) == MatchingIds(s, search, defs)
  {
    hide *;
    var found: seq<DataSource> := [];
    var i := 0;
    ListedOnce(defs, definitions);
    assert Collected(s, search, definitions[..0], found) by { NothingCollected(s, search); }
    while i < |definitions|
      invariant 0 <= i <= |definitions|
      invariant Collected(s, search, definitions[..i], found)
    {
      var definition := definitions[i];
      assert definitions[..i + 1] == definitions[..i] + [definition];
      assert !Exists(definitions[..i], definition.id) by { NotBefore(definitions, i); }
      CollectedMore(s, search, definitions[..i], definition, found);
      if Matches(s, search, definition.id) {
        found := found + [SourceOf(s, definition)];
      }
      i := i + 1;
    }
    assert definitions[..i] == definitions;
    CollectedOnce(s, search, definitions, found);
    sources := SortSources(found);
    AllMatching(s, search, defs, definitions, found, sources);
  }

  /** The source of a matching definition in the list. */
  ghost predicate Found(s: Service, search: Bytes, definitions: seq<Connection.Definition>, x: DataSource) {
    exists k :: 0 <= k < |definitions| && Matches(s, search, definitions[k].id) && x == SourceOf(s, definitions[k])
  }

  ghost predicate Exists(definitions: seq<Connection.Definition>, id: Bytes) {
    exists k :: 0 <= k < |definitions| && definitions[k].id == id
  }

  /** These are the sources of the matching definitions, each once. */
  ghost predicate Collected(s: Service, search: Bytes, definitions: seq<Connection.Definition>,
                            found: seq<DataSource>)
  {
    && (forall j | 0 <= j < |found| :: Found(s, search, definitions, found[j]))
    && (forall k | 0 <= k < |definitions| && Matches(s, search, definitions[k].id) ::
          SourceOf(s, definitions[k]) in found)
    && (forall j, k | 0 <= j < k < |found| :: found[j].id != found[k].id)
  }

  lemma NothingCollected(s: Service, search: Bytes)
    ensures forall definitions: seq<Connection.Definition> | definitions == [] :: Collected(s, search, definitions, [])
  {
  }

  lemma NotBefore(definitions: seq<Connection.Definition>, i: nat)
    requires i < |definitions| && forall j, k | 0 <= j < k < |definitions| :: definitions[j].id != definitions[k].id
    ensures !Exists(definitions[..i], definitions[i].id)
  {
  }

  lemma CollectedMore(s: Service, search: Bytes, definitions: seq<Connection.Definition>, d: Connection.Definition,
                      found: seq<DataSource>)
    requires Collected(s, search, definitions, found) && !Exists(definitions, d.id)
    ensures Collected(s, search, definitions + [d],
                      if Matches(s, search, d.id) then found + [SourceOf(s, d)] else found)
  {
    hide Matches;
    var more := definitions + [d];
    forall j | 0 <= j < |found| ensures Found(s, search, more, found[j]) && found[j].id != d.id {
      assert Found(s, search, definitions, found[j]);
      var k :| 0 <= k < |definitions| && Matches(s, search, definitions[k].id)
               && found[j] == SourceOf(s, definitions[k]);
      assert more[k] == definitions[k];
    }
    assert more[|definitions|] == d;
    if Matches(s, search, d.id) {
      assert Found(s, search, more, SourceOf(s, d));
      var next := found + [SourceOf(s, d)];
      assert next[|found|] == SourceOf(s, d);
      forall k | 0 <= k < |more| && Matches(s, search, more[k].id) ensures SourceOf(s, more[k]) in next {
        if k < |definitions| { assert SourceOf(s, definitions[k]) in found; }
      }
    }
  }

  lemma CollectedOnce(s: Service, search: Bytes, definitions: seq<Connection.Definition>, found: seq<DataSource>)
    requires Collected(s, search, definitions, found)
    ensures forall j, k | 0 <= j < k < |found| :: found[j].id != found[k].id
  {
  }

  lemma ListedOnce(defs: Connection.Definitions, definitions: seq<Connection.Definition>)
    requires Connection.Keyed(defs) && definitions == Connection.SortedDefinitions(defs)
    ensures forall j, k | 0 <= j < k < |definitions| :: definitions[j].id != definitions[k].id
    ensures forall k | 0 <= k < |definitions| :: definitions[k].id in defs && defs[definitions[k].id] == definitions[k]
    ensures forall id | id in defs :: exists k :: 0 <= k < |definitions| && definitions[k].id == id
  {
    hide Less;
    hide Connection.ValidDefinition;
    var ids := SortedOf(defs.Keys);
    forall k | 0 <= k < |ids| ensures ids[k] in defs && definitions[k].id == ids[k] {
      assert ids[k] in ids;
    }
    forall j, k | 0 <= j < k < |definitions| ensures definitions[j].id != definitions[k].id {
      LessIrreflexive(ids[j]);
    }
    forall id | id in defs ensures exists k :: 0 <= k < |definitions| && definitions[k].id == id {
      assert id in ids;
      var k :| 0 <= k < |ids| && ids[k] == id;
      assert definitions[k].id == id;
    }
  }

  lemma AllMatching(s: Service, search: Bytes, defs: Connection.Definitions, definitions: seq<Connection.Definition>,
                    found: seq<DataSource>, sources: seq<DataSource>)
    requires Connection.Keyed(defs) && definitions == Connection.SortedDefinitions(defs)
    requires Collected(s, search, definitions, found)
    requires Increasing(IdsOf(sources)) && forall x :: x in sources <==> x in found
    ensures Sorted(s, defs, sources) && IdsOf(sources) == MatchingIds(s, search, defs)
  {
    hide Less;
    hide Matches;
    hide Connection.ValidDefinition;
    hide Connection.SortedDefinitions;
    ListedOnce(defs, definitions);
    forall i | 0 <= i < |sources|
      ensures sources[i].id in defs && sources[i] == SourceOf(s, defs[sources[i].id])
      ensures Matches(s, search, sources[i].id)
    {
      assert sources[i] in found;
      var j :| 0 <= j < |found| && found[j] == sources[i];
      var k :| 0 <= k < |definitions| && Matches(s, search, definitions[k].id)
               && found[j] == SourceOf(s, definitions[k]);
    }
    forall id ensures id in IdsOf(sources) <==> id in MatchingIds(s, search, defs) {
      if id in MatchingIds(s, search, defs) {
        var k :| 0 <= k < |definitions| && definitions[k].id == id;
        assert SourceOf(s, definitions[k]) in sources;
        var i :| 0 <= i < |sources| && sources[i] == SourceOf(s, definitions[k]);
        assert IdsOf(sources)[i] == id;
      }
    }
    IncreasingUnique(IdsOf(sources), MatchingIds(s, search, defs));
  }
}
