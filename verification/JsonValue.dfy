/** JSON values (RFC 8259), their text without white space, and a reader of such texts. */
module JsonValue {
  import opened Common
  import opened Text
  import opened Json
  import opened Timestamp
  import opened Delimited

  datatype Value =
    | Null
    | Bool(b: bool)
    | Number(n: int)
    | String(s: Bytes)
    | List(items: seq<Value>)
    | Object(members: seq<Member>)

  datatype Member = Member(name: Bytes, value: Value)

  const COMMA: byte := 44
  const COLON: byte := 58
  const OPEN_LIST: byte := 91
  const CLOSE_LIST: byte := 93
  const OPEN_OBJECT: byte := 123
  const CLOSE_OBJECT: byte := 125

  // ---- Writing ----

  function Render(v: Value): (r: Bytes)
    decreases v
  {
    match v
    case Null => Ascii("null")
    case Bool(b) => if b then Ascii("true") else Ascii("false")
    case Number(n) => FormatInt(n)
    case String(s) => Quote(s)
    case List(items) => [OPEN_LIST] + RenderItems(items) + [CLOSE_LIST]
    case Object(members) => [OPEN_OBJECT] + RenderMembers(members) + [CLOSE_OBJECT]
  }

  function RenderItems(items: seq<Value>): Bytes
    decreases items
  {
    if items == [] then []
    else Render(items[0]) + if |items| == 1 then [] else [COMMA] + RenderItems(items[1..])
  }

  function RenderMember(m: Member): Bytes
    decreases m
  {
    Quote(m.name) + [COLON] + Render(m.value)
  }

  function RenderMembers(members: seq<Member>): Bytes
    decreases members
  {
    if members == [] then []
    else RenderMember(members[0]) + if |members| == 1 then [] else [COMMA] + RenderMembers(members[1..])
  }

  lemma {:induction false} RenderItemsSnoc(items: seq<Value>, v: Value)
    ensures RenderItems(items + [v]) == RenderItems(items) + (if items == [] then [] else [COMMA]) + Render(v)
    decreases |items|
  {
    var more := items + [v];
    if items != [] {
      RenderItemsSnoc(items[1..], v);
      assert more[1..] == items[1..] + [v];
      if |items| == 1 {
        assert items[1..] == [];
      }
    }
  }

  lemma {:induction false} RenderMembersSnoc(members: seq<Member>, m: Member)
    ensures RenderMembers(members + [m])
            == RenderMembers(members) + (if members == [] then [] else [COMMA]) + RenderMember(m)
    decreases |members|
  {
    hide RenderMember;
    var more := members + [m];
    if members != [] {
      RenderMembersSnoc(members[1..], m);
      assert more[1..] == members[1..] + [m];
      if |members| == 1 {
        assert members[1..] == [];
      }
    }
  }

  // ---- Reading ----

  /** A value at the start of the text, and what follows it. */
  function Parse(s: Bytes): (r: Option<(Value, Bytes)>)
    ensures r.Some? ==> |r.value.1| < |s|
    decreases |s|, 0
  {
    if s == [] then None
    else if s[0] == QUOTE then
      match ReadString(s)
      case Some((text, rest)) => if |rest| < |s| then Some((String(text), rest)) else None
      case None => None
    else if s[0] == OPEN_LIST then
      if |s| > 1 && s[1] == CLOSE_LIST then Some((List([]), s[2..]))
      else
        match ParseItems(s[1..])
        case Some((items, rest)) => Some((List(items), rest))
        case None => None
    else if s[0] == OPEN_OBJECT then
      if |s| > 1 && s[1] == CLOSE_OBJECT then Some((Object([]), s[2..]))
      else
        match ParseMembers(s[1..])
        case Some((members, rest)) => Some((Object(members), rest))
        case None => None
    else if IsDigit(s[0]) then
      match ReadNumber(s)
      case Some((n, rest)) => if |rest| < |s| then Some((Number(n), rest)) else None
      case None => None
    else if s[0] == 45 then
      match ReadNumber(s[1..])
      case Some((n, rest)) => if |rest| < |s| then Some((Number(0 - n), rest)) else None
      case None => None
    else ParseWord(s)
  }

  function ParseWord(s: Bytes): (r: Option<(Value, Bytes)>)
    ensures r.Some? ==> |r.value.1| < |s|
  {
    if Skip(Ascii("null"), s).Some? then Some((Null, s[4..]))
    else if Skip(Ascii("true"), s).Some? then Some((Bool(true), s[4..]))
    else if Skip(Ascii("false"), s).Some? then Some((Bool(false), s[5..]))
    else None
  }

  function ParseItems(s: Bytes): (r: Option<(seq<Value>, Bytes)>)
    ensures r.Some? ==> |r.value.1| < |s|
    decreases |s|, 1
  {
    match Parse(s)
    case None => None
    case Some((v, rest)) =>
      if rest == [] then None
      else if rest[0] == CLOSE_LIST then Some(([v], rest[1..]))
      else if rest[0] != COMMA then None
      else
        match ParseItems(rest[1..])
        case Some((items, after)) => Some(([v] + items, after))
        case None => None
  }

  function ParseMember(s: Bytes): (r: Option<(Member, Bytes)>)
    ensures r.Some? ==> |r.value.1| < |s|
    decreases |s|, 1
  {
    match ReadString(s)
    case None => None
    case Some((name, rest)) =>
      if rest == [] || rest[0] != COLON || |rest| > |s| then None
      else
        match Parse(rest[1..])
        case Some((v, after)) => Some((Member(name, v), after))
        case None => None
  }

  function ParseMembers(s: Bytes): (r: Option<(seq<Member>, Bytes)>)
    ensures r.Some? ==> |r.value.1| < |s|
    decreases |s|, 2
  {
    match ParseMember(s)
    case None => None
    case Some((m, rest)) =>
      if rest == [] then None
      else if rest[0] == CLOSE_OBJECT then Some(([m], rest[1..]))
      else if rest[0] != COMMA then None
      else
        match ParseMembers(rest[1..])
        case Some((members, after)) => Some(([m] + members, after))
        case None => None
  }

  // ---- Round trip ----

  /** The value as it is read back: bytes that are no text were replaced when it was written. */
  function Clean(v: Value): Value
    decreases v
  {
    match v
    case String(s) => String(Sanitised(s))
    case List(items) => List(CleanItems(items))
    case Object(members) => Object(CleanMembers(members))
    case _ => v
  }

  function CleanItems(items: seq<Value>): seq<Value>
    decreases items
  {
    if items == [] then [] else [Clean(items[0])] + CleanItems(items[1..])
  }

  function CleanMembers(members: seq<Member>): seq<Member>
    decreases members
  {
    if members == [] then []
    else [Member(Sanitised(members[0].name), Clean(members[0].value))] + CleanMembers(members[1..])
  }

  lemma FirstOf(v: Value)
    ensures Render(v) != [] && Render(v)[0] != CLOSE_LIST && Render(v)[0] != CLOSE_OBJECT
    ensures v.Number? ==> Render(v)[0] == 45 || IsDigit(Render(v)[0])
  {
    if v.Number? {
      DecimalNumber(if v.n < 0 then -v.n else v.n);
    }
  }

  lemma WordsAreRead(rest: Bytes)
    ensures Parse(Ascii("null") + rest) == Some((Null, rest))
    ensures Parse(Ascii("true") + rest) == Some((Bool(true), rest))
    ensures Parse(Ascii("false") + rest) == Some((Bool(false), rest))
  {
    SkipLiteral(Ascii("null"), rest);
    SkipLiteral(Ascii("true"), rest);
    SkipLiteral(Ascii("false"), rest);
    var s, t, u := Ascii("null") + rest, Ascii("true") + rest, Ascii("false") + rest;
    assert s[0] == 110 && t[0] == 116 && u[0] == 102;
    assert s[4..] == rest && t[4..] == rest && u[5..] == rest;
  }

  lemma FirstDigit(m: nat)
    ensures IsDigit(Decimal(m)[0])
  {
    DecimalNumber(m);
  }

  lemma NumberIsRead(n: int, rest: Bytes)
    requires rest != [] && !IsDigit(rest[0])
    ensures Parse(FormatInt(n) + rest) == Some((Number(n), rest))
  {
    hide Decimal;
    hide ReadNumber;
    hide ParseWord;
    hide ReadString;
    var s := FormatInt(n) + rest;
    var m := if n < 0 then -n else n;
    FirstDigit(m);
    ReadDecimal(m, rest);
    if n < 0 {
      assert s[0] == 45 && s[1..] == Decimal(m) + rest;
    } else {
      assert s == Decimal(m) + rest;
      assert s[0] == Decimal(m)[0];
    }
  }

  lemma StringIsRead(text: Bytes, rest: Bytes)
    ensures Parse(Quote(text) + rest) == Some((String(Sanitised(text)), rest))
  {
    hide Escape;
    hide ReadString;
    ReadQuoted(text, rest);
    assert (Quote(text) + rest)[0] == QUOTE;
  }

  /** Reading the text of a value gives the value back, whatever follows, but that a number must be told from it. */
  lemma {:induction false} ParseRender(v: Value, rest: Bytes)
    requires v.Number? ==> rest != [] && !IsDigit(rest[0])
    ensures Parse(Render(v) + rest) == Some((Clean(v), rest))
    decreases v, 0
  {
    hide Parse;
    hide ParseItems;
    hide ParseMembers;
    match v
    case Null => WordsAreRead(rest);
    case Bool(_) => WordsAreRead(rest);
    case Number(n) => NumberIsRead(n, rest);
    case String(text) => StringIsRead(text, rest);
    case List(items) =>
      if items != [] { ItemsAreRead(items, rest); }
      ListIsRead(items, rest);
    case Object(members) =>
      if members != [] { MembersAreRead(members, rest); }
      ObjectIsRead(members, rest);
  }

  lemma ListIsRead(items: seq<Value>, rest: Bytes)
    requires items != [] ==> ParseItems(RenderItems(items) + [CLOSE_LIST] + rest) == Some((CleanItems(items), rest))
    ensures Parse(Render(List(items)) + rest) == Some((Clean(List(items)), rest))
  {
    hide ParseItems;
    var s := Render(List(items)) + rest;
    assert s[0] == OPEN_LIST;
    if items == [] {
      assert s == [OPEN_LIST, CLOSE_LIST] + rest && s[2..] == rest;
    } else {
      FirstOf(items[0]);
      assert s[1..] == RenderItems(items) + [CLOSE_LIST] + rest;
      assert s[1] == Render(items[0])[0];
    }
  }

  lemma ObjectIsRead(members: seq<Member>, rest: Bytes)
    requires members != [] ==>
               ParseMembers(RenderMembers(members) + [CLOSE_OBJECT] + rest) == Some((CleanMembers(members), rest))
    ensures Parse(Render(Object(members)) + rest) == Some((Clean(Object(members)), rest))
  {
    hide ParseMembers;
    hide Escape;
    var s := Render(Object(members)) + rest;
    assert s[0] == OPEN_OBJECT;
    if members == [] {
      assert s == [OPEN_OBJECT, CLOSE_OBJECT] + rest && s[2..] == rest;
    } else {
      assert s[1..] == RenderMembers(members) + [CLOSE_OBJECT] + rest;
      assert s[1] == Quote(members[0].name)[0] == QUOTE;
    }
  }

  lemma {:induction false} ItemsAreRead(items: seq<Value>, rest: Bytes)
    requires items != []
    ensures ParseItems(RenderItems(items) + [CLOSE_LIST] + rest) == Some((CleanItems(items), rest))
    decreases items
  {
    hide Parse;
    hide Render;
    hide Clean;
    var s := RenderItems(items) + [CLOSE_LIST] + rest;
    if |items| == 1 {
      var tail := [CLOSE_LIST] + rest;
      ParseRender(items[0], tail);
      assert s == Render(items[0]) + tail && tail[1..] == rest;
      assert items[1..] == [] && CleanItems(items[1..]) == [];
      assert CleanItems(items) == [Clean(items[0])];
    } else {
      var more := RenderItems(items[1..]) + [CLOSE_LIST] + rest;
      var tail := [COMMA] + more;
      ParseRender(items[0], tail);
      assert s == Render(items[0]) + tail && tail[1..] == more;
      ItemsAreRead(items[1..], rest);
    }
  }

  lemma {:induction false} MemberIsRead(m: Member, rest: Bytes)
    requires rest != [] && !IsDigit(rest[0])
    ensures ParseMember(RenderMember(m) + rest) == Some((Member(Sanitised(m.name), Clean(m.value)), rest))
    decreases m, 0
  {
    hide Parse;
    hide Render;
    hide Clean;
    hide ReadString;
    hide Quote;
    var s := RenderMember(m) + rest;
    var tail := [COLON] + (Render(m.value) + rest);
    ReadQuoted(m.name, tail);
    assert s == Quote(m.name) + tail && tail[1..] == Render(m.value) + rest;
    ParseRender(m.value, rest);
  }

  lemma {:induction false} MembersAreRead(members: seq<Member>, rest: Bytes)
    requires members != []
    ensures ParseMembers(RenderMembers(members) + [CLOSE_OBJECT] + rest) == Some((CleanMembers(members), rest))
    decreases members
  {
    hide ParseMember;
    hide RenderMember;
    hide Clean;
    var s := RenderMembers(members) + [CLOSE_OBJECT] + rest;
    if |members| == 1 {
      var tail := [CLOSE_OBJECT] + rest;
      MemberIsRead(members[0], tail);
      assert s == RenderMember(members[0]) + tail && tail[1..] == rest;
      assert members[1..] == [] && CleanMembers(members[1..]) == [];
      assert CleanMembers(members) == [Member(Sanitised(members[0].name), Clean(members[0].value))];
    } else {
      var more := RenderMembers(members[1..]) + [CLOSE_OBJECT] + rest;
      var tail := [COMMA] + more;
      MemberIsRead(members[0], tail);
      assert s == RenderMember(members[0]) + tail && tail[1..] == more;
      MembersAreRead(members[1..], rest);
    }
  }

  // ---- Objects, member by member ----

  predicate PlainChar(c: char) {
    'a' <= c <= 'z' || 'A' <= c <= 'Z' || c == '_'
  }

  lemma KeyIsPlain(name: string)
    requires IsKey(name)
    ensures Quote(Ascii(name)) == [QUOTE] + Ascii(name) + [QUOTE] && Sanitised(Ascii(name)) == Ascii(name)
  {
    hide Escape;
    hide Sanitised;
    hide ValidUtf8;
    var key := Ascii(name);
    forall i | 0 <= i < |key| ensures key[i] < 0x80 && !NeedsEscape(key[i]) {
      assert PlainChar(name[i]);
    }
    PlainEscape(key);
    PlainIsValid(key);
    SanitisedIsValid(key);
  }

  lemma AsciiConcat(a: string, b: string)
    ensures Ascii(a + b) == Ascii(a) + Ascii(b)
  {
  }

  lemma Regrouped(before: Bytes, key: Bytes, r: Bytes)
    ensures before + [QUOTE] + key + [QUOTE, COLON] + r == before + ([QUOTE] + key + [QUOTE] + [COLON] + r)
  {
  }

  lemma Punctuation()
    ensures Ascii("\"") == [QUOTE] && Ascii("\":") == [QUOTE, COLON]
    ensures Ascii(",") == [COMMA] && Ascii("{") == [OPEN_OBJECT] && Ascii("}") == [CLOSE_OBJECT]
    ensures Ascii("[") == [OPEN_LIST] && Ascii("]") == [CLOSE_LIST]
  {
  }

  function Field(name: string, v: Value): Member {
    Member(Ascii(name), v)
  }

  ghost predicate IsKey(name: string) {
    forall i | 0 <= i < |name| :: PlainChar(name[i])
  }

  lemma KeyIs(before: string, name: string, v: Value)
    requires IsKey(name)
    ensures Ascii(before + "\"" + name + "\":") + Render(v) == Ascii(before) + RenderMember(Field(name, v))
  {
    hide Ascii;
    hide Quote;
    hide Render;
    hide IsKey;
    KeyIsPlain(name);
    Punctuation();
    AsciiConcat(before + "\"" + name, "\":");
    AsciiConcat(before + "\"", name);
    AsciiConcat(before, "\"");
    Regrouped(Ascii(before), Ascii(name), Render(v));
  }

  /** The first member of an object, as it is written. */
  lemma FirstMember(name: string, v: Value)
    requires IsKey(name)
    ensures Ascii("{" + "\"" + name + "\":") + Render(v) == [OPEN_OBJECT] + RenderMembers([Field(name, v)])
  {
    hide Ascii;
    hide RenderMember;
    hide IsKey;
    KeyIs("{", name, v);
    Punctuation();
    assert [Field(name, v)][1..] == [];
  }

  lemma Appended(text: Bytes, key: Bytes, r: Bytes, members: Bytes, m: Bytes)
    requires text == [OPEN_OBJECT] + members && key + r == [COMMA] + m
    ensures text + key + r == [OPEN_OBJECT] + (members + [COMMA] + m)
  {
    assert text + key + r == text + (key + r);
  }

  /** A further one. */
  lemma NextMember(text: Bytes, members: seq<Member>, name: string, v: Value)
    requires IsKey(name) && members != [] && text == [OPEN_OBJECT] + RenderMembers(members)
    ensures text + Ascii("," + "\"" + name + "\":") + Render(v)
            == [OPEN_OBJECT] + RenderMembers(members + [Field(name, v)])
  {
    hide Ascii;
    hide RenderMember;
    hide RenderMembers;
    hide Render;
    hide IsKey;
    KeyIs(",", name, v);
    Punctuation();
    RenderMembersSnoc(members, Field(name, v));
    Appended(text, Ascii("," + "\"" + name + "\":"), Render(v), RenderMembers(members), RenderMember(Field(name, v)));
  }

  lemma {:induction false} CleanEach(items: seq<Value>, cleaned: seq<Value>)
    requires |cleaned| == |items| && forall i | 0 <= i < |items| :: cleaned[i] == Clean(items[i])
    ensures CleanItems(items) == cleaned
  {
    hide Clean;
    if items != [] {
      CleanEach(items[1..], cleaned[1..]);
    }
  }

  lemma MembersClean(members: seq<Member>, cleaned: seq<Member>)
    requires |cleaned| == |members|
    requires forall i | 0 <= i < |members| ::
               cleaned[i].name == Sanitised(members[i].name) && cleaned[i].value == Clean(members[i].value)
    ensures CleanMembers(members) == cleaned
    decreases |members|
  {
    hide Clean;
    if members != [] {
      MembersClean(members[1..], cleaned[1..]);
    }
  }
}
