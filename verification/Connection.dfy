/** Connection definitions and the sorted lists the stores exchange. */
module Connection {
  import opened Common
  import opened Text
  import opened Order
  import opened Unicode
  import Reference

  const MAX_ID_LENGTH := 128

  datatype Definition = Definition(
    id: Bytes,
    kind: Bytes,
    settings: map<Bytes, Bytes>,
    secretRefs: map<Bytes, Bytes>)

  /** What an adapter makes of a connection string. */
  datatype Parsed = Parsed(settings: map<Bytes, Bytes>, secrets: map<Bytes, Bytes>)

  datatype Resolved = Resolved(
    id: Bytes,
    kind: Bytes,
    settings: map<Bytes, Bytes>,
    secrets: map<Bytes, Bytes>)

  predicate AsciiLetter(b: byte) { 65 <= b <= 90 || 97 <= b <= 122 }

  predicate AsciiDigit(b: byte) { 48 <= b <= 57 }

  predicate IDCharacter(b: byte) { AsciiLetter(b) || AsciiDigit(b) || b == 46 || b == 95 || b == 45 }

  predicate ValidID(id: Bytes) {
    0 < |id| <= MAX_ID_LENGTH && forall i | 0 <= i < |id| :: IDCharacter(id[i])
  }

  predicate FieldCharacter(b: byte) { AsciiLetter(b) || AsciiDigit(b) || b == 95 || b == 45 }

  predicate ValidFieldName(name: Bytes) {
    name != [] && AsciiLetter(name[0]) && forall i | 1 <= i < |name| :: FieldCharacter(name[i])
  }

  /** An identifier has up to 128 letters, numerals, points, underscores and hyphens. */
  lemma IdentifierIs(id: Bytes)
    ensures ValidID(id) <==>
              && 1 <= |id| <= 128
              && forall i | 0 <= i < |id| ::
                   var c := id[i] as char; IsLetter(c) || IsNumeral(c) || c == '.' || c == '_' || c == '-'
  {
  }

  /** A field name is a letter followed by letters, numerals, underscores and hyphens. */
  lemma FieldNameIs(name: Bytes)
    ensures ValidFieldName(name) <==>
              && |name| >= 1 && IsLetter(name[0] as char)
              && forall i | 1 <= i < |name| ::
                   var c := name[i] as char; IsLetter(c) || IsNumeral(c) || c == '_' || c == '-'
  {
  }

  /** strings.TrimSpace leaves nothing. */
  predicate Blank(s: Bytes) {
    s == [] || (RuneSize(s) > 0 && Space(s[..RuneSize(s)]) && Blank(s[RuneSize(s)..]))
  }

  /** It leaves nothing exactly of sequences of white space. */
  lemma {:induction false} BlankIs(s: Bytes)
    ensures Blank(s) <==> exists cs :: AllWhite(cs) && Encoded(cs) == s
    decreases |s|
  {
    hide CodePoint;
    hide EncodeCodePoint;
    hide IsWhite;
    if s == [] {
      assert AllWhite([]) && Encoded([]) == s;
    } else {
      if Blank(s) {
        var n := RuneSize(s);
        BlankIs(s[n..]);
        RunePrefix(s);
        WhiteIsSpace(s[..n]);
        var cs :| AllWhite(cs) && Encoded(cs) == s[n..];
        var more := [CodePoint(s[..n])] + cs;
        assert more[1..] == cs;
        assert AllWhite(more) && Encoded(more) == s;
      }
      forall cs | AllWhite(cs) && Encoded(cs) == s ensures Blank(s) {
        var rest := cs[1..];
        WhiteIsRune(cs[0], Encoded(rest));
        BlankIs(Encoded(rest));
        assert AllWhite(rest);
      }
    }
  }

  /** Definition.Validate returns no error. */
  predicate ValidDefinition(d: Definition) {
    && ValidID(d.id)
    && !Blank(d.kind)
    && (forall name | name in d.settings :: ValidFieldName(name))
    && (forall name | name in d.secretRefs ::
          ValidFieldName(name) && name !in d.settings && Reference.Valid(d.secretRefs[name]))
  }

  /** The conditions of Definition.Validate, spelled out. */
  lemma DefinitionIs(d: Definition)
    ensures ValidDefinition(d) <==>
              && ValidID(d.id) && !Blank(d.kind)
              && d.settings.Keys !! d.secretRefs.Keys
              && (forall name | name in d.settings.Keys + d.secretRefs.Keys :: ValidFieldName(name))
              && (forall ref | ref in d.secretRefs.Values :: Reference.Parts(ref).Some?)
  {
    hide ValidID;
    hide Blank;
    hide ValidFieldName;
    hide Reference.Parts;
  }

  type Definitions = map<Bytes, Definition>

  ghost predicate Keyed(defs: Definitions) {
    forall id | id in defs :: defs[id].id == id && ValidDefinition(defs[id])
  }

  /** The definitions in the order of their ids. */
  ghost function SortedDefinitions(defs: Definitions): (r: seq<Definition>)
    ensures |r| == |SortedOf(defs.Keys)|
    ensures forall i | 0 <= i < |r| :: r[i] == defs[SortedOf(defs.Keys)[i]]
  {
    var ids := SortedOf(defs.Keys);
    assert forall i | 0 <= i < |ids| :: ids[i] in ids;
    seq(|ids|, i requires 0 <= i < |ids| => defs[ids[i]])
  }

  method SortDefinitions(defs: Definitions) returns (r: seq<Definition>)
    ensures r == SortedDefinitions(defs)
  {
    hide *;
    var ids := SortStrings(defs.Keys);
    r := [];
    var i := 0;
    while i < |ids|
      invariant 0 <= i == |r| <= |ids|
      invariant ids == SortedOf(defs.Keys)
      invariant forall k | 0 <= k < i :: r[k] == defs[ids[k]]
    {
      assert ids[i] in ids;
      r := r + [defs[ids[i]]];
      i := i + 1;
    }
  }

  /** A list of definitions by id, unless one is invalid or an id repeats. */
  function Collect(list: seq<Definition>): (r: Option<Definitions>)
    ensures r.Some? ==> Keyed(r.value) && r.value.Keys == set i | 0 <= i < |list| :: list[i].id
  {
    if list == [] then Some(map[])
    else
      var last := list[|list| - 1];
      match Collect(list[..|list| - 1])
      case Some(defs) => if ValidDefinition(last) && last.id !in defs then Some(defs[last.id := last]) else None
      case None => None
  }

  /** The loop of filestore's load and of NewManager. */
  method CollectDefinitions(list: seq<Definition>) returns (r: Option<Definitions>)
    ensures r == Collect(list)
  {
    hide ValidDefinition;
    var defs: Definitions := map[];
    var i := 0;
    while i < |list|
      invariant 0 <= i <= |list|
      invariant Collect(list[..i]) == Some(defs)
    {
      assert list[..i + 1][..i] == list[..i];
      if !ValidDefinition(list[i]) || list[i].id in defs {
        CollectPrefix(list, i + 1);
        return None;
      }
      defs := defs[list[i].id := list[i]];
      i := i + 1;
    }
    assert list[..i] == list;
    return Some(defs);
  }

  lemma {:induction false} CollectPrefix(list: seq<Definition>, k: nat)
    requires k <= |list| && Collect(list[..k]).None?
    ensures Collect(list).None?
    decreases |list|
  {
    if k < |list| {
      assert list[..|list| - 1][..k] == list[..k];
      CollectPrefix(list[..|list| - 1], k);
    } else {
      assert list[..k] == list;
    }
  }

  /** Collecting what is listed in order gives the definitions again: so a manager takes over what a store lists. */
  lemma CollectSorted(defs: Definitions)
    requires Keyed(defs)
    ensures Collect(SortedDefinitions(defs)) == Some(defs)
  {
    var ids, list := SortedOf(defs.Keys), SortedDefinitions(defs);
    CollectRange(defs, ids, list);
    assert forall id :: id in defs.Keys <==> id in ids;
    assert Part(defs, ids) == defs;
  }

  /** The definitions of these ids. */
  function Part(defs: Definitions, ids: seq<Bytes>): Definitions {
    map id | id in ids && id in defs :: defs[id]
  }

  lemma {:induction false} CollectRange(defs: Definitions, ids: seq<Bytes>, list: seq<Definition>)
    requires Keyed(defs) && Increasing(ids) && |list| == |ids|
    requires forall i | 0 <= i < |ids| :: ids[i] in defs && list[i] == defs[ids[i]]
    ensures Collect(list) == Some(Part(defs, ids))
  {
    hide Less;
    hide ValidDefinition;
    hide Increasing;
    if ids == [] {
      CollectNothing(defs);
    } else {
      var last := |ids| - 1;
      IncreasingTail(ids, 0, last);
      CollectRange(defs, ids[..last], list[..last]);
      NotBefore(ids);
      CollectSnoc(defs, ids[..last], ids[last], list[..last]);
      assert ids == ids[..last] + [ids[last]] && list == list[..last] + [defs[ids[last]]];
    }
  }

  lemma CollectNothing(defs: Definitions)
    ensures Collect([]) == Some(Part(defs, []))
  {
    hide ValidDefinition;
  }

  lemma CollectSnoc(defs: Definitions, ids: seq<Bytes>, id: Bytes, list: seq<Definition>)
    requires Keyed(defs) && id in defs && id !in ids && forall x | x in ids :: x in defs
    requires Collect(list) == Some(Part(defs, ids))
    ensures Collect(list + [defs[id]]) == Some(Part(defs, ids + [id]))
  {
    hide ValidDefinition;
    var more := list + [defs[id]];
    assert more[..|list|] == list && more[|list|] == defs[id];
    assert Collect(more) == Some(Part(defs, ids)[id := defs[id]]);
    assert Part(defs, ids + [id]) == Part(defs, ids)[id := defs[id]];
  }

  lemma NotBefore(ids: seq<Bytes>)
    requires Increasing(ids) && ids != []
    ensures ids[|ids| - 1] !in ids[..|ids| - 1]
  {
    hide Less;
    LessIrreflexive(ids[|ids| - 1]);
  }

  // ---- In a file ----

  /** What JSON makes of the values: every byte that is no part of a code point is U+FFFD (Json.UnescapeEscape). */
  function Cleaned(m: map<Bytes, Bytes>): map<Bytes, Bytes> {
    map name | name in m :: Sanitised(m[name])
  }

  /** A definition as it is in a file; names are ASCII. */
  function Stored(d: Definition): Definition {
    Definition(Sanitised(d.id), Sanitised(d.kind), Cleaned(d.settings), Cleaned(d.secretRefs))
  }

  function StoredList(list: seq<Definition>): seq<Definition> {
    seq(|list|, i requires 0 <= i < |list| => Stored(list[i]))
  }

  function StoredAll(defs: Definitions): Definitions {
    map id | id in defs :: Stored(defs[id])
  }

  /** Its kind and its settings are text. */
  ghost predicate Textual(d: Definition) {
    ValidUtf8(d.kind) && forall name | name in d.settings :: ValidUtf8(d.settings[name])
  }

  lemma CleanedIs(m: map<Bytes, Bytes>)
    ensures Cleaned(m) == m <==> forall name | name in m :: ValidUtf8(m[name])
    ensures Cleaned(Cleaned(m)) == Cleaned(m)
  {
    forall name | name in m
      ensures Cleaned(m)[name] == m[name] <==> ValidUtf8(m[name])
      ensures Sanitised(Sanitised(m[name])) == Sanitised(m[name])
    {
      SanitisedIsValid(m[name]);
      SanitisedIsValid(Sanitised(m[name]));
    }
  }

  lemma StoredTwice(d: Definition)
    ensures Stored(Stored(d)) == Stored(d)
  {
    CleanedIs(d.settings);
    CleanedIs(d.secretRefs);
    SanitisedIsValid(d.id);
    SanitisedIsValid(Sanitised(d.id));
    SanitisedIsValid(d.kind);
    SanitisedIsValid(Sanitised(d.kind));
  }

  lemma StoredAllTwice(defs: Definitions)
    ensures StoredAll(StoredAll(defs)) == StoredAll(defs)
  {
    hide Stored;
    forall id | id in defs ensures Stored(Stored(defs[id])) == Stored(defs[id]) {
      StoredTwice(defs[id]);
    }
  }

  lemma {:induction false} BlankSanitised(s: Bytes)
    ensures Blank(Sanitised(s)) <==> Blank(s)
    decreases |s|
  {
    if s != [] {
      var n := RuneSize(s);
      if n == 0 {
        RuneSizePrefix(REPLACEMENT, Sanitised(s[1..]));
      } else {
        BlankSanitised(s[n..]);
        RunePrefix(s);
        RuneSizePrefix(s[..n], Sanitised(s[n..]));
      }
    }
  }

  /** The identifier and the references of a valid definition are text, and writing it keeps it valid. */
  lemma StoredIsValid(d: Definition)
    requires ValidDefinition(d)
    ensures ValidDefinition(Stored(d)) && Stored(d).id == d.id && Stored(d).secretRefs == d.secretRefs
    ensures Stored(d) == d <==> Textual(d)
  {
    hide Reference.Valid;
    hide ValidFieldName;
    hide Blank;
    PlainIsValid(d.id);
    SanitisedIsValid(d.id);
    SanitisedIsValid(d.kind);
    BlankSanitised(d.kind);
    forall name | name in d.secretRefs ensures ValidUtf8(d.secretRefs[name]) {
      Reference.ValidIsText(d.secretRefs[name]);
    }
    CleanedIs(d.settings);
    CleanedIs(d.secretRefs);
  }

  lemma StoredKeyed(defs: Definitions)
    requires Keyed(defs)
    ensures Keyed(StoredAll(defs))
    ensures StoredList(SortedDefinitions(defs)) == SortedDefinitions(StoredAll(defs))
    ensures StoredAll(defs) == defs <==> forall id | id in defs :: Textual(defs[id])
  {
    hide Stored;
    hide ValidDefinition;
    hide Textual;
    forall id | id in defs
      ensures ValidDefinition(Stored(defs[id])) && Stored(defs[id]).id == id
      ensures StoredAll(defs)[id] == defs[id] <==> Textual(defs[id])
    {
      StoredIsValid(defs[id]);
    }
    assert StoredAll(defs).Keys == defs.Keys;
    var ids := SortedOf(defs.Keys);
    assert forall i | 0 <= i < |ids| :: ids[i] in ids;
  }

  /**
   A file of the sorted definitions is read as the definitions written: the same ones exactly when every kind
   and every setting is UTF-8.
   */
  lemma ReadBack(defs: Definitions)
    requires Keyed(defs)
    ensures Collect(StoredList(SortedDefinitions(defs))) == Some(StoredAll(defs))
    ensures StoredAll(defs) == defs <==> forall id | id in defs :: Textual(defs[id])
  {
    hide *;
    StoredKeyed(defs);
    CollectSorted(StoredAll(defs));
  }

  lemma {:induction false} CollectedFrom(list: seq<Definition>)
    requires Collect(list).Some?
    ensures forall id | id in Collect(list).value :: Collect(list).value[id] in list
  {
    hide ValidDefinition;
    if list != [] {
      CollectedFrom(list[..|list| - 1]);
    }
  }

  /** What was read from a file is stored as it is. */
  lemma ReadIsStored(list: seq<Definition>)
    requires Collect(list).Some? && StoredList(list) == list
    ensures StoredAll(Collect(list).value) == Collect(list).value
  {
    hide Stored;
    hide Collect;
    CollectedFrom(list);
    var defs := Collect(list).value;
    forall id | id in defs ensures Stored(defs[id]) == defs[id] {
      var i :| 0 <= i < |list| && list[i] == defs[id];
      assert StoredList(list)[i] == Stored(list[i]);
    }
  }

  /** The database of postgres://u:p@h/d%FF is the bytes `d` and FF; in a file it is `d` and U+FFFD. */
  lemma SettingIsReplaced(id: Bytes, name: Bytes)
    requires ValidID(id) && ValidFieldName(name)
    ensures var d := Definition(id, [112], map[name := [100, 0xFF]], map[]);
      && ValidDefinition(d)
      && Stored(d) == d.(settings := map[name := [100] + REPLACEMENT])
      && Stored(d) != d
      && Collect(StoredList([d])) == Some(map[id := Stored(d)])
  {
    hide ValidID;
    hide ValidFieldName;
    var d := Definition(id, [112], map[name := [100, 0xFF]], map[]);
    assert [112][1..] == [] && [112][..1] == [112];
    assert ValidDefinition(d);
    StoredIsValid(d);
    var s: Bytes := [100, 0xFF];
    assert s[1..] == [0xFF] && [0xFF][1..] == [] && s[..1] == [100];
    assert Sanitised([]) == [];
    assert Sanitised([0xFF]) == REPLACEMENT;
    assert Sanitised(s) == [100] + REPLACEMENT;
    assert Sanitised([112]) == [112];
    assert StoredList([d])[..0] == [];
  }
}
