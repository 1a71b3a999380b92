/** What is sent of a failure is JSON within JSON, and a reader gets its fields back from both layers. */
module FailureReading {
  import opened Common
  import opened Text
  import opened Json
  import opened JsonValue
  import opened ErrorBound
  import opened FailureWire

  // ---- The fields ----

  /** A text that is left out when it is empty. */
  function Optional(name: string, text: Bytes): seq<Member> {
    if text == [] then [] else [Field(name, String(text))]
  }

  function OptionalNumber(name: string, n: int): seq<Member> {
    if n == 0 then [] else [Field(name, Number(n))]
  }

  function OptionalFlag(name: string, b: bool): seq<Member> {
    if b then [Field(name, Bool(true))] else []
  }

  /** The fields of a database error, group by group. */
  function FieldsAt(e: DatabaseError, i: nat): seq<Member>
    requires i < 17
  {
    match i
    case 0 => [Field("kind", String(e.kind))]
    case 1 => Optional("code", e.code)
    case 2 => Optional("extended_code", e.extendedCode)
    case 3 => Optional("severity", e.severity)
    case 4 => Optional("severity_unlocalized", e.severityUnlocalized)
    case 5 => Optional("message", e.message) + OptionalFlag("truncated", e.truncated)
    case 6 => Optional("detail", e.detail)
    case 7 =>
      Optional("hint", e.hint) + OptionalNumber("position", e.position)
        + OptionalNumber("internal_position", e.internalPosition)
    case 8 => Optional("internal_query", e.internalQuery)
    case 9 => Optional("where", e.where_)
    case 10 => Optional("schema_name", e.schemaName)
    case 11 => Optional("table_name", e.tableName)
    case 12 => Optional("column_name", e.columnName)
    case 13 => Optional("data_type_name", e.dataTypeName)
    case 14 => Optional("constraint_name", e.constraintName)
    case 15 => Optional("file", e.file) + OptionalNumber("line", e.line)
    case _ => Optional("routine", e.routine)
  }

  function Fields(e: DatabaseError, n: nat): seq<Member>
    requires n <= 17
  {
    if n == 0 then [] else Fields(e, n - 1) + FieldsAt(e, n - 1)
  }

  function ErrorValue(e: DatabaseError): Value {
    Object(Fields(e, 17))
  }

  function FailureValue(f: Failure): Value {
    Object([
      Field("category", String(Ascii(CategoryName(f.category)))),
      Field("message", String(f.message)),
      Field("retryable", Bool(f.retryable))]
      + if f.databaseError.Some? then [Field("database_error", ErrorValue(f.databaseError.value))] else [])
  }

  /** The tool result around the text of a failure. */
  function ToolResult(text: Bytes): Value {
    Object([
      Field("content", List([Object([Field("type", String(Ascii("text"))), Field("text", String(text))])])),
      Field("isError", Bool(true))])
  }

  // ---- The texts are those of the fields ----

  lemma KeysAreKeys(i: nat)
    requires i < 17
    ensures IsKey(KeyName(i))
  {
    hide IsKey;
    hide KeyName;
    if i < 6 {
      FirstKeys(i);
    } else if i < 11 {
      MiddleKeys(i);
    } else {
      LastKeys(i);
    }
  }

  lemma FirstKeys(i: nat)
    requires i < 6
    ensures IsKey(KeyName(i))
  {
  }

  lemma MiddleKeys(i: nat)
    requires 6 <= i < 11
    ensures IsKey(KeyName(i))
  {
  }

  lemma LastKeys(i: nat)
    requires 11 <= i < 17
    ensures IsKey(KeyName(i))
  {
  }

  lemma OtherKeys()
    ensures IsKey("truncated") && IsKey("position") && IsKey("internal_position") && IsKey("line")
    ensures IsKey("category") && IsKey("message") && IsKey("retryable") && IsKey("database_error")
    ensures IsKey("content") && IsKey("type") && IsKey("text") && IsKey("isError") && IsKey("kind")
  {
  }

  lemma KeyText(name: string)
    ensures Key(name) == Ascii("," + "\"" + name + "\":")
  {
    hide Ascii;
    AsciiConcat("," + "\"" + name, "\":");
    AsciiConcat("," + "\"", name);
    assert "," + "\"" == ",\"";
  }

  /** The text so far is that of an object that is still open. */
  ghost predicate Open(text: Bytes, members: seq<Member>) {
    members != [] && text == [OPEN_OBJECT] + RenderMembers(members)
  }

  lemma NextField(text: Bytes, members: seq<Member>, name: string, v: Value)
    requires Open(text, members) && IsKey(name)
    ensures Open(text + (Key(name) + Render(v)), members + [Field(name, v)])
  {
    hide Ascii;
    hide IsKey;
    hide Key;
    hide Render;
    hide RenderMembers;
    KeyText(name);
    NextMember(text, members, name, v);
    assert text + (Key(name) + Render(v)) == text + Key(name) + Render(v);
  }

  lemma NextOptional(text: Bytes, members: seq<Member>, name: string, value: Bytes)
    requires Open(text, members) && IsKey(name)
    ensures Open(text + (if value == [] then [] else Key(name) + Quote(value)), members + Optional(name, value))
  {
    hide IsKey;
    hide Key;
    hide Quote;
    hide Open;
    if value == [] {
      assert text + [] == text && members + [] == members;
    } else {
      NextField(text, members, name, String(value));
    }
  }

  lemma NextNumber(text: Bytes, members: seq<Member>, name: string, n: int32)
    requires Open(text, members) && IsKey(name)
    ensures Open(text + NumberMember(name, n), members + OptionalNumber(name, n))
  {
    hide IsKey;
    hide Key;
    hide FormatInt;
    hide Open;
    if n == 0 {
      assert text + [] == text && members + [] == members;
    } else {
      NextField(text, members, name, Number(n));
    }
  }

  lemma NextFlag(text: Bytes, members: seq<Member>, name: string, b: bool)
    requires Open(text, members) && IsKey(name)
    ensures Open(text + (if b then Key(name) + Ascii("true") else []), members + OptionalFlag(name, b))
  {
    hide IsKey;
    hide Key;
    hide Ascii;
    hide Open;
    if b {
      NextField(text, members, name, Bool(true));
    } else {
      assert text + [] == text && members + [] == members;
    }
  }

  function ExtraFields(e: DatabaseError, i: nat): seq<Member> {
    if i == 5 then OptionalFlag("truncated", e.truncated)
    else if i == 7 then
      OptionalNumber("position", e.position) + OptionalNumber("internal_position", e.internalPosition)
    else if i == 15 then OptionalNumber("line", e.line)
    else []
  }

  lemma NextExtras(text: Bytes, members: seq<Member>, e: DatabaseError, i: nat)
    requires Open(text, members)
    ensures Open(text + Extras(e, i), members + ExtraFields(e, i))
  {
    hide Open;
    hide IsKey;
    hide NumberMember;
    hide OptionalNumber;
    hide OptionalFlag;
    hide Key;
    hide Ascii;
    OtherKeys();
    if i == 5 {
      NextFlag(text, members, "truncated", e.truncated);
    } else if i == 7 {
      var a, b := NumberMember("position", e.position), NumberMember("internal_position", e.internalPosition);
      var c, d := OptionalNumber("position", e.position), OptionalNumber("internal_position", e.internalPosition);
      NextNumber(text, members, "position", e.position);
      NextNumber(text + a, members + c, "internal_position", e.internalPosition);
      assert text + a + b == text + (a + b) && members + c + d == members + (c + d);
    } else if i == 15 {
      NextNumber(text, members, "line", e.line);
    } else {
      assert text + [] == text && members + [] == members;
    }
  }

  /** The names and the order of the strings are those of the fields. */
  lemma FieldsAre(e: DatabaseError, i: nat)
    requires 0 < i < 17
    ensures FieldsAt(e, i) == Optional(KeyName(i), Strings(e)[i]) + ExtraFields(e, i)
  {
    hide Optional;
    hide OptionalFlag;
    hide OptionalNumber;
  }

  lemma {:induction false} MembersAre(e: DatabaseError, n: nat)
    requires 0 < n <= 17
    ensures Open([OPEN_OBJECT] + Members(e, Strings(e), n), Fields(e, n))
    decreases n
  {
    hide Open;
    hide Extras;
    hide FieldsAt;
    hide ExtraFields;
    hide Strings;
    hide Key;
    hide Quote;
    hide KeyName;
    hide IsKey;
    var strings := Strings(e);
    if n == 1 {
      FirstFieldIs(e);
    } else {
      MembersAre(e, n - 1);
      var text, value := [OPEN_OBJECT] + Members(e, strings, n - 1), strings[n - 1];
      var member, extras := StringMember(n - 1, value), Extras(e, n - 1);
      KeysAreKeys(n - 1);
      NextOptional(text, Fields(e, n - 1), KeyName(n - 1), value);
      NextExtras(text + member, Fields(e, n - 1) + Optional(KeyName(n - 1), value), e, n - 1);
      FieldsAre(e, n - 1);
      Grouped([OPEN_OBJECT], Members(e, strings, n - 1), member, extras);
      assert Fields(e, n - 1) + Optional(KeyName(n - 1), value) + ExtraFields(e, n - 1) == Fields(e, n);
    }
  }

  lemma Grouped(a: Bytes, b: Bytes, c: Bytes, d: Bytes)
    ensures a + b + c + d == a + (b + c + d)
  {
  }

  lemma FirstFieldIs(e: DatabaseError)
    ensures Open([OPEN_OBJECT] + Members(e, Strings(e), 1), Fields(e, 1))
  {
    hide Quote;
    hide Ascii;
    hide RenderMembers;
    hide IsKey;
    OtherKeys();
    FirstMember("kind", String(e.kind));
    Punctuation();
    AsciiConcat("{", "\"kind\":");
    assert "{" + "\"kind\":" == "{" + "\"" + "kind" + "\":";
    assert Members(e, Strings(e), 0) == [] && Fields(e, 0) == [];
    assert Strings(e)[0] == e.kind;
    assert Fields(e, 1) == [Field("kind", String(e.kind))];
    assert Members(e, Strings(e), 1) == Ascii("\"kind\":") + Quote(e.kind);
  }

  lemma ErrorIsJson(e: DatabaseError)
    ensures EncodeError(e) == Render(ErrorValue(e))
  {
    hide Members;
    hide Fields;
    hide RenderMembers;
    hide Strings;
    MembersAre(e, 17);
    Punctuation();
  }

  /** The text of a failure is the JSON text of its fields. */
  lemma FailureIsJson(f: Failure)
    ensures EncodeFailure(f) == Render(FailureValue(f))
  {
    hide Ascii;
    hide Quote;
    hide CategoryName;
    hide EncodeError;
    hide ErrorValue;
    hide RenderMembers;
    hide IsKey;
    HeadIs(f);
    Punctuation();
    var text := Ascii("{\"category\":") + Quote(Ascii(CategoryName(f.category))) + Ascii(",\"message\":")
                + Quote(f.message) + Ascii(",\"retryable\":") + Ascii(if f.retryable then "true" else "false");
    var members := [Field("category", String(Ascii(CategoryName(f.category)))), Field("message", String(f.message)),
                    Field("retryable", Bool(f.retryable))];
    match f.databaseError
    case None =>
      assert text + ErrorPart(None) == text && members + [] == members;
    case Some(e) =>
      OtherKeys();
      ErrorIsJson(e);
      NextMember(text, members, "database_error", ErrorValue(e));
      assert "," + "\"" + "database_error" + "\":" == ",\"database_error\":";
      assert text + ErrorPart(f.databaseError) == text + Ascii(",\"database_error\":") + Render(ErrorValue(e));
  }

  lemma HeadIs(f: Failure)
    ensures Open(Ascii("{\"category\":") + Quote(Ascii(CategoryName(f.category))) + Ascii(",\"message\":")
                 + Quote(f.message) + Ascii(",\"retryable\":") + Ascii(if f.retryable then "true" else "false"),
                 [Field("category", String(Ascii(CategoryName(f.category)))), Field("message", String(f.message)),
                  Field("retryable", Bool(f.retryable))])
  {
    hide Ascii;
    hide Quote;
    hide CategoryName;
    hide RenderMembers;
    hide IsKey;
    OtherKeys();
    assert "{" + "\"" + "category" + "\":" == "{\"category\":" && "," + "\"" + "message" + "\":" == ",\"message\":";
    assert "," + "\"" + "retryable" + "\":" == ",\"retryable\":";
    var category := Field("category", String(Ascii(CategoryName(f.category))));
    var message := Field("message", String(f.message));
    FirstMember("category", category.value);
    var text := Ascii("{\"category\":") + Render(category.value);
    NextMember(text, [category], "message", message.value);
    text := text + Ascii(",\"message\":") + Render(message.value);
    assert [category] + [message] == [category, message];
    NextMember(text, [category, message], "retryable", Bool(f.retryable));
    assert [category, message] + [Field("retryable", Bool(f.retryable))]
           == [category, message, Field("retryable", Bool(f.retryable))];
  }

  // ---- Reading ----

  /** The members are read back as they are. */
  ghost predicate AreClean(members: seq<Member>) {
    forall i | 0 <= i < |members| :: Sanitised(members[i].name) == members[i].name
                                     && Clean(members[i].value) == members[i].value
  }

  lemma FieldIsClean(name: string, v: Value)
    requires IsKey(name) && Clean(v) == v
    ensures AreClean([Field(name, v)])
  {
    hide Ascii;
    hide IsKey;
    hide Sanitised;
    hide Clean;
    KeyIsPlain(name);
  }

  lemma TextIsClean(text: Bytes)
    requires ValidUtf8(text)
    ensures Clean(String(text)) == String(text)
  {
    SanitisedIsValid(text);
  }

  lemma ObjectIsClean(members: seq<Member>)
    requires AreClean(members)
    ensures Clean(Object(members)) == Object(members)
  {
    hide CleanMembers;
    MembersClean(members, members);
  }

  lemma OptionalIsClean(name: string, text: Bytes)
    requires IsKey(name) && ValidUtf8(text)
    ensures AreClean(Optional(name, text))
  {
    hide IsKey;
    hide ValidUtf8;
    hide Clean;
    TextIsClean(text);
    FieldIsClean(name, String(text));
  }

  lemma ExtrasAreClean(e: DatabaseError, i: nat)
    ensures AreClean(ExtraFields(e, i))
  {
    hide IsKey;
    hide Field;
    OtherKeys();
    FieldIsClean("truncated", Bool(true));
    FieldIsClean("position", Number(e.position));
    FieldIsClean("internal_position", Number(e.internalPosition));
    FieldIsClean("line", Number(e.line));
  }

  lemma {:induction false} FieldsAreClean(e: DatabaseError, n: nat)
    requires n <= 17 && ValidStrings(e)
    ensures AreClean(Fields(e, n))
    decreases n
  {
    hide FieldsAt;
    hide Optional;
    hide ExtraFields;
    hide KeyName;
    hide IsKey;
    hide ValidUtf8;
    hide Strings;
    hide Clean;
    hide Sanitised;
    if n > 1 {
      FieldsAreClean(e, n - 1);
      FieldsAre(e, n - 1);
      KeysAreKeys(n - 1);
      OptionalIsClean(KeyName(n - 1), Strings(e)[n - 1]);
      ExtrasAreClean(e, n - 1);
    } else if n == 1 {
      KindIsClean(e);
    }
  }

  lemma KindIsClean(e: DatabaseError)
    requires ValidStrings(e)
    ensures AreClean(Fields(e, 1))
  {
    hide Ascii;
    hide ValidUtf8;
    hide Clean;
    hide Sanitised;
    OtherKeys();
    hide IsKey;
    assert Strings(e)[0] == e.kind;
    TextIsClean(e.kind);
    FieldIsClean("kind", String(e.kind));
    assert Fields(e, 0) == [];
  }

  lemma FailureIsClean(f: Failure)
    requires ValidUtf8(f.message) && (f.databaseError.Some? ==> ValidStrings(f.databaseError.value))
    ensures Clean(FailureValue(f)) == FailureValue(f)
  {
    hide Fields;
    hide Field;
    hide IsKey;
    hide ValidUtf8;
    hide ValidStrings;
    hide CategoryName;
    hide Clean;
    OtherKeys();
    var name := Ascii(CategoryName(f.category));
    PlainIsValid(name);
    TextIsClean(name);
    TextIsClean(f.message);
    FieldIsClean("category", String(name));
    FieldIsClean("message", String(f.message));
    FlagIsClean(f.retryable);
    FieldIsClean("retryable", Bool(f.retryable));
    if f.databaseError.Some? {
      FieldsAreClean(f.databaseError.value, 17);
      ObjectIsClean(Fields(f.databaseError.value, 17));
      FieldIsClean("database_error", ErrorValue(f.databaseError.value));
    }
    ThreeAreClean(Field("category", String(name)), Field("message", String(f.message)),
                  Field("retryable", Bool(f.retryable)));
    ObjectIsClean(FailureValue(f).members);
  }

  lemma ThreeAreClean(a: Member, b: Member, c: Member)
    requires AreClean([a]) && AreClean([b]) && AreClean([c])
    ensures AreClean([a, b, c])
  {
    assert [a, b, c][0] == [a][0] && [a, b, c][1] == [b][0] && [a, b, c][2] == [c][0];
  }

  lemma FlagIsClean(b: bool)
    ensures Clean(Bool(b)) == Bool(b)
  {
  }

  /** The text of the tool result. */
  lemma WireIsJson(f: Failure)
    ensures Wire(f) == Render(ToolResult(EncodeFailure(f)))
  {
    hide Quote;
    hide EncodeFailure;
    hide IsKey;
    hide RenderMembers;
    hide Ascii;
    OtherKeys();
    Punctuation();
    ContentIs(EncodeFailure(f));
    var text := EncodeFailure(f);
    var content := List([Object([Field("type", String(Ascii("text"))), Field("text", String(text))])]);
    FirstMember("content", content);
    assert "{" + "\"" + "content" + "\":" == "{\"content\":";
    assert "," + "\"" + "isError" + "\":" == ",\"isError\":";
    var open := Ascii("{\"content\":") + Render(content);
    NextMember(open, [Field("content", content)], "isError", Bool(true));
    assert [Field("content", content)] + [Field("isError", Bool(true))] == ToolResult(text).members;
    WireIs(text);
  }

  lemma WireIs(text: Bytes)
    ensures Ascii("{\"content\":[{\"type\":\"text\",\"text\":") + Quote(text) + Ascii("}],\"isError\":true}")
            == Ascii("{\"content\":") + (Ascii("[{\"type\":\"text\",\"text\":") + Quote(text) + Ascii("}]"))
               + Ascii(",\"isError\":") + Ascii("true") + Ascii("}")
  {
    hide Ascii;
    hide Quote;
    AsciiConcat("{\"content\":", "[{\"type\":\"text\",\"text\":");
    assert "{\"content\":" + "[{\"type\":\"text\",\"text\":" == "{\"content\":[{\"type\":\"text\",\"text\":";
    AsciiConcat("}]", ",\"isError\":");
    AsciiConcat("}]" + ",\"isError\":", "true");
    AsciiConcat("}]" + ",\"isError\":" + "true", "}");
    assert "}]" + ",\"isError\":" + "true" + "}" == "}],\"isError\":true}";
    Spread(Ascii("{\"content\":"), Ascii("[{\"type\":\"text\",\"text\":"), Quote(text), Ascii("}]"),
           Ascii(",\"isError\":"), Ascii("true"), Ascii("}"));
  }

  lemma Spread(a: Bytes, b: Bytes, q: Bytes, c: Bytes, d: Bytes, e: Bytes, g: Bytes)
    ensures (a + b) + q + (c + d + e + g) == a + (b + q + c) + d + e + g
  {
  }

  lemma ContentIs(text: Bytes)
    ensures Render(List([Object([Field("type", String(Ascii("text"))), Field("text", String(text))])]))
            == Ascii("[{\"type\":\"text\",\"text\":") + Quote(text) + Ascii("}]")
  {
    hide Quote;
    hide IsKey;
    hide RenderMembers;
    hide Ascii;
    OtherKeys();
    Punctuation();
    KeyIsPlain("text");
    FirstMember("type", String(Ascii("text")));
    var type_ := Field("type", String(Ascii("text")));
    var open := Ascii("{" + "\"" + "type" + "\":") + Render(type_.value);
    NextMember(open, [type_], "text", String(text));
    var item := Object([type_] + [Field("text", String(text))]);
    assert [type_] + [Field("text", String(text))] == [type_, Field("text", String(text))];
    assert [item][1..] == [];
    assert RenderItems([item]) == Render(item);
    ContentText();
    Threefold(Ascii("["), Ascii("{" + "\"" + "type" + "\":"), Quote(Ascii("text")),
              Ascii("," + "\"" + "text" + "\":"), Quote(text));
    assert Ascii("}") + Ascii("]") == Ascii("}]");
  }

  lemma ContentText()
    ensures Ascii("[") + Ascii("{" + "\"" + "type" + "\":") + ([QUOTE] + Ascii("text") + [QUOTE])
            + Ascii("," + "\"" + "text" + "\":") == Ascii("[{\"type\":\"text\",\"text\":")
    ensures Ascii("}") + Ascii("]") == Ascii("}]")
  {
  }

  lemma Threefold(a: Bytes, b: Bytes, c: Bytes, d: Bytes, e: Bytes)
    ensures a + (b + c + d + e) == a + b + c + d + e
  {
  }

  /** A client reads the text out of the tool result, and out of it all that the failure says. */
  lemma FailureIsRead(f: Failure)
    requires ValidUtf8(f.message) && (f.databaseError.Some? ==> ValidStrings(f.databaseError.value))
    ensures Parse(Wire(f)) == Some((ToolResult(EncodeFailure(f)), []))
    ensures Parse(EncodeFailure(f)) == Some((FailureValue(f), []))
  {
    hide *;
    var text := EncodeFailure(f);
    WireIsJson(f);
    FailureIsJson(f);
    FailureIsClean(f);
    ResultIsClean(f);
    AreObjects(f);
    ParseRender(FailureValue(f), []);
    ParseRender(ToolResult(text), []);
    assert text + [] == text && Wire(f) + [] == Wire(f);
  }

  lemma AreObjects(f: Failure)
    ensures !FailureValue(f).Number? && !ToolResult(EncodeFailure(f)).Number?
  {
  }

  lemma ResultIsClean(f: Failure)
    requires ValidUtf8(f.message) && (f.databaseError.Some? ==> ValidStrings(f.databaseError.value))
    ensures Clean(ToolResult(EncodeFailure(f))) == ToolResult(EncodeFailure(f))
  {
    hide EncodeFailure;
    hide ValidStrings;
    FailureCost(f);
    hide ValidUtf8;
    ToolResultIsClean(EncodeFailure(f));
  }

  lemma ToolResultIsClean(text: Bytes)
    requires ValidUtf8(text)
    ensures Clean(ToolResult(text)) == ToolResult(text)
  {
    hide Field;
    hide IsKey;
    hide AreClean;
    hide ValidUtf8;
    hide CleanMembers;
    hide Ascii;
    hide Sanitised;
    OtherKeys();
    FlagIsClean(true);
    KeyIsPlain("text");
    TextIsClean(text);
    assert Clean(String(Ascii("text"))) == String(Ascii("text"));
    FieldIsClean("type", String(Ascii("text")));
    FieldIsClean("text", String(text));
    var item := Object([Field("type", String(Ascii("text"))), Field("text", String(text))]);
    TwoAreClean(Field("type", String(Ascii("text"))), Field("text", String(text)));
    ObjectIsClean(item.members);
    CleanEach([item], [item]);
    FieldIsClean("content", List([item]));
    FieldIsClean("isError", Bool(true));
    TwoAreClean(Field("content", List([item])), Field("isError", Bool(true)));
    ObjectIsClean(ToolResult(text).members);
  }

  lemma TwoAreClean(a: Member, b: Member)
    requires AreClean([a]) && AreClean([b])
    ensures AreClean([a, b])
  {
    assert [a, b][0] == [a][0] && [a, b][1] == [b][0];
  }

  /** So whatever a database puts into its error, the response is text that a client reads as the bounded failure. */
  lemma BoundedIsRead(f: Failure, byteLimit: nat)
    requires byteLimit >= MINIMUM_LIMIT
    requires f.databaseError.None? ==> f.message == Ascii(CategoryMessage(f.category))
    ensures var sent := BoundFailure(f, byteLimit);
      && Parse(Wire(sent)) == Some((ToolResult(EncodeFailure(sent)), []))
      && Parse(EncodeFailure(sent)) == Some((FailureValue(sent), []))
  {
    hide *;
    BudgetLeavesRoom(byteLimit);
    match f.databaseError
    case None =>
      BoundOfPlain(f, byteLimit);
      MessageIsText(f);
      FailureIsRead(f);
    case Some(e) =>
      BoundedMessage(f, byteLimit);
      BoundIsSmall(e, Budget(byteLimit));
      FailureIsRead(BoundFailure(f, byteLimit));
  }

  lemma MessageIsText(f: Failure)
    requires f.message == Ascii(CategoryMessage(f.category))
    ensures ValidUtf8(f.message)
  {
    PlainIsValid(f.message);
  }
}
