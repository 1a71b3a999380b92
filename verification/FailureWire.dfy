/** The failure response: a bounded failure, encoded as JSON, carried as a JSON string in a tool result. */
module FailureWire {
  import opened Common
  import opened Text
  import opened Json
  import opened ErrorBound

  datatype Category =
    | InvalidRequest | SourceNotFound | SourceKindMismatch | AccessDenied | InvalidQuery | PermissionDenied
    | ReadOnlyViolation | QueryCancelled | QueryTimeout | ResultTooLarge | AuthenticationFailed | Conflict
    | Unavailable | ResourceExhausted | DatabaseFailed | Cancelled | InternalFailure

  function CategoryName(c: Category): (s: string)
    ensures |s| <= 30
  {
    match c
    case InvalidRequest => "invalid_request"
    case SourceNotFound => "source_not_found"
    case SourceKindMismatch => "source_kind_mismatch"
    case AccessDenied => "dataporch_access_denied"
    case InvalidQuery => "invalid_query"
    case PermissionDenied => "database_permission_denied"
    case ReadOnlyViolation => "read_only_violation"
    case QueryCancelled => "query_cancelled"
    case QueryTimeout => "query_timeout"
    case ResultTooLarge => "result_too_large"
    case AuthenticationFailed => "database_authentication_failed"
    case Conflict => "database_conflict"
    case Unavailable => "database_unavailable"
    case ResourceExhausted => "database_resource_exhausted"
    case DatabaseFailed => "database_error"
    case Cancelled => "cancelled"
    case InternalFailure => "internal"
  }

  function CategoryMessage(c: Category): (s: string)
    ensures |s| <= 64
  {
    match c
    case InvalidRequest => "The query request is invalid."
    case SourceNotFound => "The data source was not found."
    case SourceKindMismatch => "The requested database kind does not match the data source."
    case AccessDenied => "DataPorch query access was denied."
    case InvalidQuery => "The query is invalid or does not return columns."
    case PermissionDenied => "The database denied query access."
    case ReadOnlyViolation => "The query violates the read-only transaction."
    case QueryCancelled => "The database cancelled the query."
    case QueryTimeout => "The query timed out."
    case ResultTooLarge => "The encoded query result is too large."
    case AuthenticationFailed => "Database authentication failed."
    case Conflict => "The query conflicted with concurrent database work."
    case Unavailable => "The database is unavailable."
    case ResourceExhausted => "The database exhausted a resource while running the query."
    case DatabaseFailed => "The database rejected the query."
    case Cancelled => "The request was cancelled."
    case InternalFailure => "The query operation failed safely."
  }

  const REJECTED: Bytes := Ascii("The database rejected the query.")

  datatype Failure = Failure(category: Category, message: Bytes, retryable: bool, databaseError: Option<DatabaseError>)

  /** relationalQueryFailure without a database error. */
  function CategoryFailure(c: Category): Failure {
    Failure(c, Ascii(CategoryMessage(c)), c.Unavailable? || c.Conflict?, None)
  }

  /** What is unavailable or in conflict may be tried again. */
  lemma RetryableAre(c: Category)
    ensures CategoryFailure(c).retryable <==> c in {Unavailable, Conflict}
    ensures CategoryFailure(c).category == c && CategoryFailure(c).databaseError.None?
  {
    hide CategoryMessage;
  }

  // ---- Encoding ----

  /** The JSON names of the strings of a database error, in their order. */
  function KeyName(i: nat): (s: string)
    requires i < 17
    ensures |s| <= 20
  {
    match i
    case 0 => "kind"
    case 1 => "code"
    case 2 => "extended_code"
    case 3 => "severity"
    case 4 => "severity_unlocalized"
    case 5 => "message"
    case 6 => "detail"
    case 7 => "hint"
    case 8 => "internal_query"
    case 9 => "where"
    case 10 => "schema_name"
    case 11 => "table_name"
    case 12 => "column_name"
    case 13 => "data_type_name"
    case 14 => "constraint_name"
    case 15 => "file"
    case _ => "routine"
  }

  function Key(name: string): Bytes {
    Ascii(",\"") + Ascii(name) + Ascii("\":")
  }

  function NumberMember(name: string, n: int32): Bytes {
    if n == 0 then [] else Key(name) + FormatInt(n)
  }

  /** The numbers and the flag that follow the string at this index. */
  function Extras(e: DatabaseError, i: nat): Bytes {
    if i == 5 then (if e.truncated then Key("truncated") + Ascii("true") else [])
    else if i == 7 then NumberMember("position", e.position) + NumberMember("internal_position", e.internalPosition)
    else if i == 15 then NumberMember("line", e.line)
    else []
  }

  /** Empty strings are omitted, but for the kind. */
  function StringMember(i: nat, value: Bytes): Bytes
    requires i < 17
  {
    if i == 0 then Ascii("\"kind\":") + Quote(value)
    else if value == [] then []
    else Key(KeyName(i)) + Quote(value)
  }

  /** The members up to the n-th string, given the strings of the error. */
  function Members(e: DatabaseError, strings: seq<Bytes>, n: nat): Bytes
    requires |strings| == 17 && n <= 17
  {
    if n == 0 then [] else Members(e, strings, n - 1) + StringMember(n - 1, strings[n - 1]) + Extras(e, n - 1)
  }

  function EncodeError(e: DatabaseError): Bytes {
    Ascii("{") + Members(e, Strings(e), 17) + Ascii("}")
  }

  function ErrorPart(e: Option<DatabaseError>): Bytes {
    match e
    case Some(e) => Ascii(",\"database_error\":") + EncodeError(e)
    case None => []
  }

  /** json.Marshal of a Failure. */
  function EncodeFailure(f: Failure): Bytes {
    Ascii("{\"category\":") + Quote(Ascii(CategoryName(f.category)))
      + Ascii(",\"message\":") + Quote(f.message)
      + Ascii(",\"retryable\":") + Ascii(if f.retryable then "true" else "false")
      + ErrorPart(f.databaseError)
      + Ascii("}")
  }

  /** The tool result that carries the failure as text. */
  function Wire(f: Failure): Bytes {
    Ascii("{\"content\":[{\"type\":\"text\",\"text\":") + Quote(EncodeFailure(f)) + Ascii("}],\"isError\":true}")
  }

  // ---- The cost of a part at the second level of encoding ----

  /** A part that may stand next to others: valid UTF-8, taking at most `cost` bytes when encoded once more. */
  ghost predicate Costs(part: Bytes, cost: nat) {
    ValidUtf8(part) && |Escape(part)| <= cost
  }

  lemma AsciiCosts(s: string)
    ensures Costs(Ascii(s), 6 * |s|)
  {
    PlainIsValid(Ascii(s));
    EscapeAtMost(Ascii(s));
  }

  lemma ConcatCosts(a: Bytes, b: Bytes, m: nat, n: nat)
    requires Costs(a, m) && Costs(b, n)
    ensures Costs(a + b, m + n)
  {
    ValidConcat(a, b);
    EscapeConcat(a, b);
  }

  lemma QuoteMarkCosts()
    ensures Costs([QUOTE], 6)
  {
    PlainIsValid([QUOTE]);
    EscapeAtMost([QUOTE]);
  }

  lemma QuoteCosts(s: Bytes)
    requires ValidUtf8(s)
    ensures Costs(Quote(s), 7 * |s| + 12)
  {
    QuoteMarkCosts();
    EscapeIsValid(s);
    EscapeTwiceAtMost(s);
    ConcatCosts([QUOTE], Escape(s), 6, 7 * |s|);
    ConcatCosts([QUOTE] + Escape(s), [QUOTE], 7 * |s| + 6, 6);
  }

  lemma KeyCosts(name: string)
    ensures Costs(Key(name), 6 * |name| + 24)
  {
    AsciiCosts(",\"");
    AsciiCosts(name);
    AsciiCosts("\":");
    ConcatCosts(Ascii(",\""), Ascii(name), 12, 6 * |name|);
    ConcatCosts(Ascii(",\"") + Ascii(name), Ascii("\":"), 12 + 6 * |name|, 12);
  }

  lemma {:induction false} DecimalIsPlain(n: nat)
    ensures forall i | 0 <= i < |Decimal(n)| :: Decimal(n)[i] < 0x80
  {
    if n >= 10 {
      DecimalIsPlain(n / 10);
    }
  }

  lemma NumberCosts(name: string, n: int32)
    requires |name| <= 20
    ensures Costs(NumberMember(name, n), 210)
  {
    if n == 0 {
      assert Escape([]) == [];
    } else {
      var value: int := n;
      var magnitude := if value < 0 then -value else value;
      DecimalIsPlain(magnitude);
      assert PowerOfTen(10) == 10_000_000_000 by {
        assert PowerOfTen(5) == 100_000;
        assert PowerOfTen(8) == 100_000_000;
      }
      DecimalBound(magnitude, 10, PowerOfTen(10));
      PlainIsValid(FormatInt(n));
      EscapeAtMost(FormatInt(n));
      KeyCosts(name);
      ConcatCosts(Key(name), FormatInt(n), 6 * |name| + 24, 66);
    }
  }

  /** What the extras after the first n strings may cost. */
  function ExtrasBudget(n: nat): nat {
    (if n > 5 then 102 else 0) + (if n > 7 then 420 else 0) + (if n > 15 then 210 else 0)
  }

  lemma ExtrasCosts(e: DatabaseError, i: nat)
    ensures Costs(Extras(e, i), ExtrasBudget(i + 1) - ExtrasBudget(i))
  {
    assert Escape([]) == [];
    if i == 5 && e.truncated {
      KeyCosts("truncated");
      AsciiCosts("true");
      ConcatCosts(Key("truncated"), Ascii("true"), 78, 24);
    } else if i == 7 {
      NumberCosts("position", e.position);
      NumberCosts("internal_position", e.internalPosition);
      ConcatCosts(NumberMember("position", e.position), NumberMember("internal_position", e.internalPosition),
                  210, 210);
    } else if i == 15 {
      NumberCosts("line", e.line);
    }
  }

  lemma StringMemberCosts(i: nat, value: Bytes)
    requires i < 17 && ValidUtf8(value)
    ensures Costs(StringMember(i, value), 7 * |value| + 156)
  {
    QuoteCosts(value);
    if i == 0 {
      AsciiCosts("\"kind\":");
      ConcatCosts(Ascii("\"kind\":"), Quote(value), 42, 7 * |value| + 12);
    } else if value == [] {
      assert Escape([]) == [];
    } else {
      KeyCosts(KeyName(i));
      ConcatCosts(Key(KeyName(i)), Quote(value), 6 * |KeyName(i)| + 24, 7 * |value| + 12);
    }
  }

  lemma {:induction false} MembersCost(e: DatabaseError, strings: seq<Bytes>, n: nat)
    requires |strings| == 17 && n <= 17 && forall i | 0 <= i < 17 :: ValidUtf8(strings[i])
    ensures Costs(Members(e, strings, n), 7 * Total(strings[..n]) + 156 * n + ExtrasBudget(n))
    decreases n
  {
    hide Costs;
    hide StringMember;
    hide Extras;
    if n == 0 {
      AsciiCosts("");
      assert Ascii("") == [];
    } else {
      MembersCost(e, strings, n - 1);
      var value := strings[n - 1];
      assert strings[..n] == strings[..n - 1] + [value];
      TotalSnoc(strings[..n - 1], value);
      StringMemberCosts(n - 1, value);
      ExtrasCosts(e, n - 1);
      var before := 7 * Total(strings[..n - 1]) + 156 * (n - 1) + ExtrasBudget(n - 1);
      var members, member := Members(e, strings, n - 1), StringMember(n - 1, value);
      ConcatCosts(members, member, before, 7 * |value| + 156);
      ConcatCosts(members + member, Extras(e, n - 1),
                  before + 7 * |value| + 156, ExtrasBudget(n) - ExtrasBudget(n - 1));
    }
  }

  ghost predicate ValidStrings(e: DatabaseError) {
    forall i | 0 <= i < 17 :: ValidUtf8(Strings(e)[i])
  }

  lemma ErrorCost(e: DatabaseError)
    requires ValidStrings(e)
    ensures Costs(EncodeError(e), 7 * Total(Strings(e)) + 3396)
  {
    hide Costs;
    hide Strings;
    hide Members;
    AsciiCosts("{");
    AsciiCosts("}");
    var strings := Strings(e);
    MembersCost(e, strings, 17);
    assert strings[..17] == strings;
    var cost := 7 * Total(strings) + 3384;
    ConcatCosts(Ascii("{"), Members(e, strings, 17), 6, cost);
    ConcatCosts(Ascii("{") + Members(e, strings, 17), Ascii("}"), cost + 6, 6);
  }

  /** All of the failure but its database error. */
  lemma HeadCost(f: Failure)
    requires ValidUtf8(f.message)
    ensures Costs(Ascii("{\"category\":") + Quote(Ascii(CategoryName(f.category))) + Ascii(",\"message\":")
                  + Quote(f.message) + Ascii(",\"retryable\":") + Ascii(if f.retryable then "true" else "false"),
                  7 * |f.message| + 486)
  {
    hide Costs;
    hide Quote;
    hide CategoryName;
    var name := Ascii(CategoryName(f.category));
    var flag := if f.retryable then "true" else "false";
    AsciiCosts("{\"category\":");
    PlainIsValid(name);
    QuoteCosts(name);
    AsciiCosts(",\"message\":");
    QuoteCosts(f.message);
    AsciiCosts(",\"retryable\":");
    AsciiCosts(flag);
    var p := Ascii("{\"category\":");
    ConcatCosts(p, Quote(name), 72, 7 * |name| + 12);
    p := p + Quote(name);
    ConcatCosts(p, Ascii(",\"message\":"), 7 * |name| + 84, 66);
    p := p + Ascii(",\"message\":");
    ConcatCosts(p, Quote(f.message), 7 * |name| + 150, 7 * |f.message| + 12);
    p := p + Quote(f.message);
    ConcatCosts(p, Ascii(",\"retryable\":"), 7 * |name| + 7 * |f.message| + 162, 78);
    p := p + Ascii(",\"retryable\":");
    ConcatCosts(p, Ascii(flag), 7 * |name| + 7 * |f.message| + 240, 6 * |flag|);
    CostsMonotone(p + Ascii(flag), 7 * |name| + 7 * |f.message| + 240 + 6 * |flag|, 7 * |f.message| + 486);
  }

  lemma CostsMonotone(part: Bytes, m: nat, n: nat)
    requires Costs(part, m) && m <= n
    ensures Costs(part, n)
  {
  }

  // ---- Every failure response fits ----

  lemma FailureCost(f: Failure)
    requires ValidUtf8(f.message)
    requires f.databaseError.Some? ==> ValidStrings(f.databaseError.value)
    ensures Costs(EncodeFailure(f),
      7 * |f.message| + 492 + if f.databaseError.Some? then 7 * Total(Strings(f.databaseError.value)) + 3510 else 0)
  {
    hide Costs;
    hide Quote;
    hide CategoryName;
    hide EncodeError;
    HeadCost(f);
    AsciiCosts("}");
    var head := Ascii("{\"category\":") + Quote(Ascii(CategoryName(f.category))) + Ascii(",\"message\":")
                + Quote(f.message) + Ascii(",\"retryable\":") + Ascii(if f.retryable then "true" else "false");
    var cost := 7 * |f.message| + 486;
    match f.databaseError
    case Some(e) =>
      ErrorCost(e);
      AsciiCosts(",\"database_error\":");
      var errorCost := 7 * Total(Strings(e)) + 3396;
      ConcatCosts(Ascii(",\"database_error\":"), EncodeError(e), 108, errorCost);
      CostsMonotone(ErrorPart(f.databaseError), errorCost + 108, errorCost + 114);
      ConcatCosts(head, ErrorPart(f.databaseError), cost, errorCost + 114);
      ConcatCosts(head + ErrorPart(f.databaseError), Ascii("}"), cost + errorCost + 114, 6);
    case None =>
      assert head + ErrorPart(None) == head;
      ConcatCosts(head, Ascii("}"), cost, 6);
  }

  const MINIMUM_LIMIT := 65_536
  const MAX_ERROR_BYTES := 65_536
  const BUDGET_RATIO := 16

  /** boundRelationalQueryFailure. */
  function BoundFailure(f: Failure, byteLimit: nat): Failure {
    match f.databaseError
    case None => f
    case Some(e) =>
      var bounded := Bound(e, Budget(byteLimit));
      f.(message := if bounded.message == [] then REJECTED else bounded.message, databaseError := Some(bounded))
  }

  lemma MessageWithinTotal(values: seq<Bytes>, i: nat)
    requires i < |values|
    ensures |values[i]| <= Total(values)
    decreases |values|
  {
    if i < |values| - 1 {
      MessageWithinTotal(values[..|values| - 1], i);
    }
  }

  lemma BoundIsSmall(e: DatabaseError, budget: nat)
    ensures Total(Strings(Bound(e, budget))) <= budget && ValidStrings(Bound(e, budget))
    ensures |Bound(e, budget).message| <= budget && ValidUtf8(Bound(e, budget).message)
  {
    var values, out := Strings(e), Spend(Strings(e), budget).0;
    StringsOfWith(e, out, e.truncated || Dropped(values, budget));
    forall i | 0 <= i < 17 ensures ValidUtf8(out[i]) {
      BoundedStrings(values, budget, i);
    }
    MessageWithinTotal(out, 5);
  }

  function Budget(byteLimit: nat): nat {
    if byteLimit / BUDGET_RATIO < MAX_ERROR_BYTES then byteLimit / BUDGET_RATIO else MAX_ERROR_BYTES
  }

  lemma WireSize(f: Failure)
    ensures |Wire(f)| == |Escape(EncodeFailure(f))| + 54
  {
    hide EncodeFailure;
  }

  /** Fourteen sixteenths of the limit, and a constant the rest of the smallest limit has room for. */
  lemma BudgetLeavesRoom(byteLimit: nat)
    requires byteLimit >= MINIMUM_LIMIT
    ensures Budget(byteLimit) >= 32 && 14 * Budget(byteLimit) + 8192 <= byteLimit
  {
    assert byteLimit / 16 * 16 <= byteLimit;
  }

  /**
   Whatever a database puts into its error, the bounded failure, JSON in JSON, is within any limit the
   configuration accepts: each budgeted byte costs at most seven, the message is counted twice, and the
   rest is below the two sixteenths that remain of the smallest limit.
   */
  lemma BoundedFailureFits(f: Failure, byteLimit: nat)
    requires byteLimit >= MINIMUM_LIMIT
    requires f.databaseError.None? ==> f.message == Ascii(CategoryMessage(f.category))
    ensures |Wire(BoundFailure(f, byteLimit))| <= byteLimit
  {
    hide *;
    var bounded := BoundFailure(f, byteLimit);
    BudgetLeavesRoom(byteLimit);
    match f.databaseError
    case None =>
      UnboundedCost(f);
      FitsByCost(f, 7 * 64 + 492, byteLimit);
      assert BoundFailure(f, byteLimit) == f by { BoundOfPlain(f, byteLimit); }
    case Some(e) =>
      BoundedCost(f, byteLimit);
      FitsByCost(bounded, 14 * Budget(byteLimit) + 4500, byteLimit);
  }

  lemma BoundOfPlain(f: Failure, byteLimit: nat)
    requires f.databaseError.None?
    ensures BoundFailure(f, byteLimit) == f
  {
  }

  lemma UnboundedCost(f: Failure)
    requires f.databaseError.None? && f.message == Ascii(CategoryMessage(f.category))
    ensures Costs(EncodeFailure(f), 7 * 64 + 492)
  {
    PlainIsValid(f.message);
    FailureCost(f);
  }

  lemma BoundedMessage(f: Failure, byteLimit: nat)
    requires f.databaseError.Some? && Budget(byteLimit) >= 32
    ensures var bounded := BoundFailure(f, byteLimit);
      && ValidUtf8(bounded.message) && |bounded.message| <= Budget(byteLimit)
      && bounded.databaseError == Some(Bound(f.databaseError.value, Budget(byteLimit)))
  {
    hide Bound;
    hide Budget;
    BoundIsSmall(f.databaseError.value, Budget(byteLimit));
    PlainIsValid(REJECTED);
  }

  lemma BoundedCost(f: Failure, byteLimit: nat)
    requires f.databaseError.Some? && Budget(byteLimit) >= 32
    ensures Costs(EncodeFailure(BoundFailure(f, byteLimit)), 14 * Budget(byteLimit) + 4500)
  {
    hide *;
    var bounded := BoundFailure(f, byteLimit);
    var out := Bound(f.databaseError.value, Budget(byteLimit));
    BoundedMessage(f, byteLimit);
    BoundIsSmall(f.databaseError.value, Budget(byteLimit));
    FailureCost(bounded);
    CostsMonotone(EncodeFailure(bounded), 7 * |bounded.message| + 492 + 7 * Total(Strings(out)) + 3510,
                  14 * Budget(byteLimit) + 4500);
  }

  lemma FitsByCost(f: Failure, cost: nat, byteLimit: nat)
    requires Costs(EncodeFailure(f), cost) && cost + 54 <= byteLimit
    ensures |Wire(f)| <= byteLimit
  {
    WireSize(f);
  }

  // ---- What is sent, for any limit the transport accepts ----

  /** How a request's context stands when an error is classified: its end takes precedence over the error. */
  datatype Context = Live | ContextCancelled | DeadlineExceeded

  /** ClassifyRelationalQuery, for an error that a live context classifies as `failure`. */
  function Classify(ctx: Context, failure: Failure): Failure {
    match ctx
    case Live => failure
    case ContextCancelled => CategoryFailure(Cancelled)
    case DeadlineExceeded => CategoryFailure(QueryTimeout)
  }

  /** New refuses limits that the result_too_large failure does not fit. */
  function MinimumFailureSize(): nat {
    |Wire(CategoryFailure(ResultTooLarge))|
  }

  lemma PlainQuoteSize(s: Bytes)
    requires Plain(s)
    ensures ValidUtf8(Quote(s)) && |Escape(Quote(s))| == |s| + 4
  {
    PlainEscape(s);
    PlainIsValid(Quote(s));
    PlainIsValid([QUOTE]);
    PlainIsValid([QUOTE] + s);
    EscapeConcat([QUOTE], s);
    EscapeConcat([QUOTE] + s, [QUOTE]);
    assert Escape([QUOTE]) == [BACKSLASH, QUOTE] by { assert [QUOTE][1..] == []; }
  }

  lemma EscapedJoin(a: Bytes, b: Bytes)
    requires ValidUtf8(a) && ValidUtf8(b)
    ensures ValidUtf8(a + b) && |Escape(a + b)| == |Escape(a)| + |Escape(b)|
  {
    ValidConcat(a, b);
    EscapeConcat(a, b);
  }

  /** What the encoding of a failure without a database error takes beside its name and message. */
  function Frame(): nat {
    |Escape(Ascii("{\"category\":"))| + |Escape(Ascii(",\"message\":"))|
      + |Escape(Ascii(",\"retryable\":"))| + |Escape(Ascii("false"))| + |Escape(Ascii("}"))| + 62
  }

  lemma PlainFailureSize(c: Category)
    requires !c.Unavailable? && !c.Conflict?
    requires Plain(Ascii(CategoryName(c))) && Plain(Ascii(CategoryMessage(c)))
    ensures |Wire(CategoryFailure(c))| == Frame() + |CategoryName(c)| + |CategoryMessage(c)|
  {
    hide Escape;
    hide ValidUtf8;
    hide Plain;
    hide Quote;
    hide CategoryName;
    hide CategoryMessage;
    hide Ascii;
    var name, message := Ascii(CategoryName(c)), Ascii(CategoryMessage(c));
    PlainQuoteSize(name);
    PlainQuoteSize(message);
    AsciiCosts("{\"category\":");
    AsciiCosts(",\"message\":");
    AsciiCosts(",\"retryable\":");
    AsciiCosts("false");
    AsciiCosts("}");
    var p := Ascii("{\"category\":");
    EscapedJoin(p, Quote(name));
    p := p + Quote(name);
    EscapedJoin(p, Ascii(",\"message\":"));
    p := p + Ascii(",\"message\":");
    EscapedJoin(p, Quote(message));
    p := p + Quote(message);
    EscapedJoin(p, Ascii(",\"retryable\":"));
    p := p + Ascii(",\"retryable\":");
    EscapedJoin(p, Ascii("false"));
    p := p + Ascii("false");
    EscapedJoin(p, Ascii("}"));
    WireSize(CategoryFailure(c));
    assert EncodeFailure(CategoryFailure(c)) == p + Ascii("}");
  }

  lemma MinimumOf(ctx: Context)
    ensures MinimumFailureSize() == |Wire(CategoryFailure(ResultTooLarge))|
    ensures Classify(ctx, CategoryFailure(ResultTooLarge)) ==
            CategoryFailure(if ctx.Live? then ResultTooLarge
                            else if ctx.ContextCancelled? then Cancelled
                            else QueryTimeout)
  {
  }

  predicate PlainChar(c: char) {
    ' ' <= c <= 'z' && c != '"' && c != '&' && c != '<' && c != '>' && c != '\\'
  }

  lemma PlainText(s: string)
    requires forall i | 0 <= i < |s| :: PlainChar(s[i])
    ensures Plain(Ascii(s))
  {
  }

  lemma TooLargeIsPlain()
    ensures Plain(Ascii(CategoryName(ResultTooLarge))) && Plain(Ascii(CategoryMessage(ResultTooLarge)))
    ensures |CategoryName(ResultTooLarge)| == 16 && |CategoryMessage(ResultTooLarge)| == 38
  {
    hide Plain;
    hide Ascii;
    var name, message := CategoryName(ResultTooLarge), CategoryMessage(ResultTooLarge);
    assert forall i | 0 <= i < |name| :: PlainChar(name[i]);
    assert forall i | 0 <= i < |message| :: PlainChar(message[i]);
    PlainText(name);
    PlainText(message);
  }

  lemma CancelledIsPlain()
    ensures Plain(Ascii(CategoryName(Cancelled))) && Plain(Ascii(CategoryMessage(Cancelled)))
    ensures |CategoryName(Cancelled)| == 9 && |CategoryMessage(Cancelled)| == 26
  {
    hide Plain;
    hide Ascii;
    var name, message := CategoryName(Cancelled), CategoryMessage(Cancelled);
    assert forall i | 0 <= i < |name| :: PlainChar(name[i]);
    assert forall i | 0 <= i < |message| :: PlainChar(message[i]);
    PlainText(name);
    PlainText(message);
  }

  lemma TimeoutIsPlain()
    ensures Plain(Ascii(CategoryName(QueryTimeout))) && Plain(Ascii(CategoryMessage(QueryTimeout)))
    ensures |CategoryName(QueryTimeout)| == 13 && |CategoryMessage(QueryTimeout)| == 20
  {
    hide Plain;
    hide Ascii;
    var name, message := CategoryName(QueryTimeout), CategoryMessage(QueryTimeout);
    assert forall i | 0 <= i < |name| :: PlainChar(name[i]);
    assert forall i | 0 <= i < |message| :: PlainChar(message[i]);
    PlainText(name);
    PlainText(message);
  }

  /** Whatever became of the context, the fallback is no longer than the failure the limit was checked for. */
  lemma FallbackFits(ctx: Context)
    ensures |Wire(Classify(ctx, CategoryFailure(ResultTooLarge)))| <= MinimumFailureSize()
  {
    hide *;
    TooLargeIsPlain();
    PlainFailureSize(ResultTooLarge);
    CancelledIsPlain();
    PlainFailureSize(Cancelled);
    TimeoutIsPlain();
    PlainFailureSize(QueryTimeout);
    MinimumOf(ctx);
  }

  /**
   What a response says of a database error: its fields bounded in a sixteenth of the limit, their message as the
   message of the response, and a fixed text when nothing is left of that.
   */
  ghost predicate Reports(response: Failure, failure: Failure, byteLimit: nat)
    requires failure.databaseError.Some?
  {
    && response.category == failure.category && response.retryable == failure.retryable
    && response.databaseError.Some?
    && var e, b := failure.databaseError.value, response.databaseError.value;
       var room := if byteLimit / 16 < 65_536 then byteLimit / 16 else 65_536;
       && response.message == (if b.message == [] then Ascii("The database rejected the query.") else b.message)
       && IsBounded(e, b, room)
       && Total(Strings(b)) <= room
       && (Total(SanitisedAll(Strings(e))) <= room ==>
             Strings(b) == SanitisedAll(Strings(e)) && b.truncated == e.truncated)
       && (b.truncated <==> e.truncated || Strings(b) != SanitisedAll(Strings(e)))
  }

  lemma BoundedReports(f: Failure, byteLimit: nat)
    requires f.databaseError.Some?
    ensures Reports(BoundFailure(f, byteLimit), f, byteLimit)
  {
    hide Bound;
    hide IsBounded;
    hide Total;
    hide Strings;
    var e := f.databaseError.value;
    var room := if byteLimit / 16 < 65_536 then byteLimit / 16 else 65_536;
    BoundedFields(e, room);
    BoundOnce(e, room);
    if Total(SanitisedAll(Strings(e))) <= room {
      FittingError(e, room);
    }
    assert Strings(Bound(e, room)) == SanitisedAll(Strings(e)) <==>
           forall i | 0 <= i < 17 :: Strings(Bound(e, room))[i] == Sanitised(Strings(e)[i]);
  }

  /**
   finishRelationalQueryError. The context may end between the two classifications. What is sent fits any limit New
   accepts. For the limits the configuration accepts it is the failure itself, its database error bounded; an ended
   context is told instead. Below them a response that does not fit gives way to one that says so.
   */
  method FinishRelationalQueryError(before: Context, after: Context, failure: Failure, byteLimit: nat)
    returns (response: Failure)
    requires byteLimit >= MinimumFailureSize()
    requires failure.databaseError.None? ==> failure.message == Ascii(CategoryMessage(failure.category))
    ensures |Wire(response)| <= byteLimit
    ensures byteLimit >= MINIMUM_LIMIT && before.Live? && failure.databaseError.None? ==> response == failure
    ensures byteLimit >= MINIMUM_LIMIT && before.Live? && failure.databaseError.Some? ==>
              Reports(response, failure, byteLimit)
    ensures byteLimit >= MINIMUM_LIMIT && before.ContextCancelled? ==>
              response == Failure(Cancelled, Ascii("The request was cancelled."), false, None)
    ensures byteLimit >= MINIMUM_LIMIT && before.DeadlineExceeded? ==>
              response == Failure(QueryTimeout, Ascii("The query timed out."), false, None)
    ensures byteLimit >= MINIMUM_LIMIT ==> response == BoundFailure(Classify(before, failure), byteLimit)
    ensures |Wire(BoundFailure(Classify(before, failure), byteLimit))| <= byteLimit ==>
              response == BoundFailure(Classify(before, failure), byteLimit)
    ensures |Wire(BoundFailure(Classify(before, failure), byteLimit))| > byteLimit ==>
              response ==
              match after
              case Live => Failure(ResultTooLarge, Ascii("The encoded query result is too large."), false, None)
              case ContextCancelled => Failure(Cancelled, Ascii("The request was cancelled."), false, None)
              case DeadlineExceeded => Failure(QueryTimeout, Ascii("The query timed out."), false, None)
  {
    hide Wire;
    hide BoundFailure;
    hide Reports;
    var classified := Classify(before, failure);
    response := BoundFailure(classified, byteLimit);
    if byteLimit >= MINIMUM_LIMIT {
      BoundedFailureFits(classified, byteLimit);
    }
    if classified.databaseError.None? {
      BoundOfPlain(classified, byteLimit);
    } else {
      BoundedReports(classified, byteLimit);
    }
    if |Wire(response)| > byteLimit {
      response := Classify(after, CategoryFailure(ResultTooLarge));
      FallbackFits(after);
    }
  }

  /** Limits the configuration accepts are accepted by New. */
  lemma ConfiguredLimitsAreAccepted()
    ensures MinimumFailureSize() <= MINIMUM_LIMIT
  {
    hide Wire;
    var f := CategoryFailure(ResultTooLarge);
    BoundedFailureFits(f, MINIMUM_LIMIT);
    BoundOfPlain(f, MINIMUM_LIMIT);
  }
}
