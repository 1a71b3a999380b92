/** Bounding a database error: one byte budget shared by its seventeen strings, in order. */
module ErrorBound {
  import opened Text

  type int32 = x: int | -0x8000_0000 <= x < 0x8000_0000

  datatype DatabaseError = DatabaseError(
    kind: Bytes,
    code: Bytes,
    extendedCode: Bytes,
    severity: Bytes,
    severityUnlocalized: Bytes,
    message: Bytes,
    truncated: bool,
    detail: Bytes,
    hint: Bytes,
    position: int32,
    internalPosition: int32,
    internalQuery: Bytes,
    where_: Bytes,
    schemaName: Bytes,
    tableName: Bytes,
    columnName: Bytes,
    dataTypeName: Bytes,
    constraintName: Bytes,
    file: Bytes,
    line: int32,
    routine: Bytes)

  /** The strings of the error in the order the budget is spent on them. */
  function Strings(e: DatabaseError): (s: seq<Bytes>)
    ensures |s| == 17
  {
    [e.kind, e.code, e.extendedCode, e.severity, e.severityUnlocalized, e.message, e.detail, e.hint, e.internalQuery,
     e.where_, e.schemaName, e.tableName, e.columnName, e.dataTypeName, e.constraintName, e.file, e.routine]
  }

  function Total(parts: seq<Bytes>): nat {
    if parts == [] then 0 else Total(parts[..|parts| - 1]) + |parts[|parts| - 1]|
  }

  // ---- One string ----

  /** The longest run of whole code points at the start of the sanitised string that fits. */
  function Clip(s: Bytes, room: nat): (r: Bytes)
    ensures |r| <= room
  {
    if s == [] then []
    else
      var n := RuneSize(s);
      var rune := if n == 0 then REPLACEMENT else s[..n];
      if |rune| > room then [] else rune + Clip(s[if n == 0 then 1 else n..], room - |rune|)
  }

  /** A prefix of the sanitised string that ends at a code point boundary and fits. */
  ghost predicate Candidate(s: Bytes, room: nat, p: Bytes) {
    p <= Sanitised(s) && ValidUtf8(p) && |p| <= room
  }

  lemma {:induction false} ClipIsCandidate(s: Bytes, room: nat)
    ensures Candidate(s, room, Clip(s, room))
    ensures Clip(s, room) == Sanitised(s) <==> |Sanitised(s)| <= room
    decreases |s|
  {
    assert RuneSize(REPLACEMENT) == 3;
    hide RuneSize;
    if s != [] {
      var n := RuneSize(s);
      var rune := if n == 0 then REPLACEMENT else s[..n];
      var rest := s[if n == 0 then 1 else n..];
      if n > 0 { RunePrefix(s); }
      if |rune| <= room {
        ClipIsCandidate(rest, room - |rune|);
        ClipStep(rune, rest, room);
        ConcatPrefix(rune, Sanitised(rest), Clip(rest, room - |rune|));
      }
    }
  }

  /** Clip is the longest candidate, and it is the whole sanitised string exactly when that fits. */
  lemma {:induction false} ClipIsLongest(s: Bytes, room: nat)
    ensures Candidate(s, room, Clip(s, room))
    ensures forall p | Candidate(s, room, p) :: p <= Clip(s, room)
    ensures Clip(s, room) == Sanitised(s) <==> |Sanitised(s)| <= room
    decreases |s|
  {
    assert RuneSize(REPLACEMENT) == 3;
    hide RuneSize;
    hide ValidUtf8;
    ClipIsCandidate(s, room);
    if s != [] {
      var n := RuneSize(s);
      var rune := if n == 0 then REPLACEMENT else s[..n];
      var rest := s[if n == 0 then 1 else n..];
      if n > 0 { RunePrefix(s); }
      if |rune| <= room {
        ClipIsLongest(rest, room - |rune|);
      }
      forall p | Candidate(s, room, p) ensures p <= Clip(s, room) {
        if |rune| <= room {
          CandidateFits(rune, rest, room - |rune|, p);
        } else {
          CandidateHasRune(rune, Sanitised(rest), p);
        }
      }
    }
  }

  lemma CandidateFits(rune: Bytes, rest: Bytes, left: nat, p: Bytes)
    requires rune != [] && RuneSize(rune) == |rune|
    requires forall q | Candidate(rest, left, q) :: q <= Clip(rest, left)
    requires p <= rune + Sanitised(rest) && ValidUtf8(p) && |p| <= |rune| + left
    ensures p <= rune + Clip(rest, left)
  {
    CandidateHasRune(rune, Sanitised(rest), p);
    if p != [] {
      hide RuneSize;
      hide Sanitised;
      hide Clip;
      var q := p[|rune|..];
      assert p == rune + q;
      ConcatPrefix(rune, q, Sanitised(rest));
      assert Candidate(rest, left, q);
      ConcatPrefix(rune, q, Clip(rest, left));
    }
  }

  lemma ConcatPrefix(r: Bytes, q: Bytes, t: Bytes)
    ensures r + q <= r + t <==> q <= t
  {
    if r + q <= r + t {
      assert (r + t)[..|r + q|] == r + q;
      assert q == (r + q)[|r|..] == (r + t)[|r|..|r| + |q|] == t[..|q|];
    }
  }

  lemma ClipStep(rune: Bytes, rest: Bytes, room: nat)
    requires rune != [] && RuneSize(rune) == |rune| <= room
    requires Candidate(rest, room - |rune|, Clip(rest, room - |rune|))
    ensures rune + Clip(rest, room - |rune|) <= rune + Sanitised(rest)
    ensures ValidUtf8(rune + Clip(rest, room - |rune|))
  {
    RuneSizePrefix(rune, Clip(rest, room - |rune|));
  }

  /** A valid prefix that is not empty contains the whole first code point. */
  lemma CandidateHasRune(rune: Bytes, t: Bytes, p: Bytes)
    requires rune != [] && RuneSize(rune) == |rune|
    requires p <= rune + t && ValidUtf8(p)
    ensures p == [] || (|p| >= |rune| && p[..|rune|] == rune && ValidUtf8(p[|rune|..]))
  {
    if p != [] {
      RuneSizePrefix(rune, t);
      PrefixRune(rune + t, p);
    }
  }

  lemma PrefixRune(s: Bytes, p: Bytes)
    requires p != [] && p <= s && RuneSize(p) > 0 && RuneSize(s) > 0
    ensures RuneSize(p) == RuneSize(s)
  {
    assert p[0] == s[0];
  }

  lemma {:induction false} ClipWhole(s: Bytes, room: nat)
    requires ValidUtf8(s) && |s| <= room
    ensures Clip(s, room) == s
  {
    ClipIsLongest(s, room);
    SanitisedIsValid(s);
  }

  /** Whether a tail is dropped. */
  function Clipped(s: Bytes, room: nat): bool {
    Clip(s, room) != Sanitised(s)
  }

  /** The code point at an offset, as the loop writes it, and the offset after it. */
  function RuneAt(s: Bytes, i: nat): (r: (Bytes, nat))
    requires i < |s|
    ensures r.0 != [] && i < r.1 <= |s|
  {
    var n := RuneSize(s[i..]);
    if n == 0 then (REPLACEMENT, i + 1) else (s[i..i + n], i + n)
  }

  /** The loop has written `bounded` for the first `i` bytes; the rest is still to be clipped to `left`. */
  ghost predicate Progress(s: Bytes, room: nat, i: nat, bounded: Bytes, left: int) {
    && i <= |s| && left == room - |bounded| >= 0
    && Clip(s, room) == bounded + Clip(s[i..], left)
    && Sanitised(s) == bounded + Sanitised(s[i..])
  }

  lemma RuneUnfolds(s: Bytes, i: nat, left: nat)
    requires i < |s|
    ensures var (rune, next) := RuneAt(s, i);
      && Sanitised(s[i..]) == rune + Sanitised(s[next..])
      && Clip(s[i..], left) == if |rune| <= left then rune + Clip(s[next..], left - |rune|) else []
  {
    hide RuneSize;
    var (rune, next) := RuneAt(s, i);
    var t := s[i..];
    assert t[if RuneSize(t) == 0 then 1 else RuneSize(t)..] == s[next..];
    assert RuneSize(t) > 0 ==> t[..RuneSize(t)] == rune;
  }

  lemma ProgressStep(s: Bytes, room: nat, i: nat, bounded: Bytes, left: int)
    requires Progress(s, room, i, bounded, left) && i < |s|
    ensures var (rune, next) := RuneAt(s, i);
      if |rune| > left then Clip(s, room) == bounded && Clipped(s, room)
      else Progress(s, room, next, bounded + rune, left - |rune|)
  {
    hide RuneAt;
    hide Clip;
    hide Sanitised;
    var (rune, next) := RuneAt(s, i);
    RuneUnfolds(s, i, left);
    assert bounded + (rune + Sanitised(s[next..])) == bounded + rune + Sanitised(s[next..]);
    if |rune| <= left {
      var rest := Clip(s[next..], left - |rune|);
      assert bounded + (rune + rest) == bounded + rune + rest;
    }
  }

  lemma ProgressEnds(s: Bytes, room: nat, bounded: Bytes, left: int)
    requires Progress(s, room, |s|, bounded, left)
    ensures Clip(s, room) == bounded && !Clipped(s, room)
  {
    assert s[|s|..] == [];
  }

  /**
   boundUTF8String: the clipped string, the room left, and whether a tail was dropped. The fast path
   for a valid string that fits returns what the loop would.
   */
  method BoundUtf8String(value: Bytes, remaining: int) returns (bounded: Bytes, left: int, truncated: bool)
    ensures var room := if remaining > 0 then remaining else 0;
      && bounded == Clip(value, room)
      && left == remaining - |bounded|
      && truncated == Clipped(value, room)
  {
    if value == [] {
      return [], remaining, false;
    }
    if remaining <= 0 {
      SanitisedGrows(value);
      ClipIsLongest(value, 0);
      return [], remaining, true;
    }
    hide Clip;
    hide Sanitised;
    var valid := IsValidUtf8(value);
    if |value| <= remaining && valid {
      ClipWhole(value, remaining);
      SanitisedIsValid(value);
      return value, remaining - |value|, false;
    }
    bounded, left := [], remaining;
    var consumed := 0;
    assert value[consumed..] == value;
    while consumed < |value|
      invariant Progress(value, remaining, consumed, bounded, left)
    {
      ProgressStep(value, remaining, consumed, bounded, left);
      var (rune, next) := RuneAt(value, consumed);
      if |rune| > left {
        return bounded, left, true;
      }
      bounded := bounded + rune;
      left := left - |rune|;
      consumed := next;
    }
    ProgressEnds(value, remaining, bounded, left);
    return bounded, left, false;
  }

  /** utf8.ValidString. */
  method IsValidUtf8(s: Bytes) returns (valid: bool)
    ensures valid <==> ValidUtf8(s)
  {
    var i := 0;
    while i < |s|
      invariant 0 <= i <= |s|
      invariant ValidUtf8(s) <==> ValidUtf8(s[i..])
    {
      var n := RuneSize(s[i..]);
      if n == 0 {
        return false;
      }
      assert s[i..][n..] == s[i + n..];
      i := i + n;
    }
    return true;
  }

  // ---- All strings ----

  /** The bounded strings and the room left, spending the budget in order. */
  function Spend(values: seq<Bytes>, budget: nat): (r: (seq<Bytes>, nat))
    ensures |r.0| == |values|
    ensures Total(r.0) + r.1 == budget
  {
    if values == [] then ([], budget)
    else
      var last := values[|values| - 1];
      var (done, room) := Spend(values[..|values| - 1], budget);
      var clipped := Clip(last, room);
      assert (done + [clipped])[..|done|] == done;
      (done + [clipped], room - |clipped|)
  }

  /** Some string lost a tail. */
  function Dropped(values: seq<Bytes>, budget: nat): bool {
    values != [] &&
    (Dropped(values[..|values| - 1], budget)
     || Clipped(values[|values| - 1], Spend(values[..|values| - 1], budget).1))
  }

  lemma TotalSnoc(values: seq<Bytes>, value: Bytes)
    ensures Total(values + [value]) == Total(values) + |value|
  {
    assert (values + [value])[..|values|] == values;
  }

  lemma SpendSnoc(values: seq<Bytes>, value: Bytes, budget: nat)
    ensures Spend(values + [value], budget) ==
      var (done, room) := Spend(values, budget); (done + [Clip(value, room)], room - |Clip(value, room)|)
    ensures Dropped(values + [value], budget) <==>
      Dropped(values, budget) || Clipped(value, Spend(values, budget).1)
  {
    assert (values + [value])[..|values|] == values;
  }

  lemma {:induction false} SpendAt(values: seq<Bytes>, budget: nat, i: nat)
    requires i < |values|
    ensures Spend(values, budget).0[i] == Clip(values[i], Spend(values[..i], budget).1)
    ensures Spend(values, budget).0[..i] == Spend(values[..i], budget).0
    decreases |values|
  {
    if i < |values| - 1 {
      var front := values[..|values| - 1];
      SpendAt(front, budget, i);
      assert front[..i] == values[..i];
      assert Spend(values, budget).0[..i] == Spend(front, budget).0[..i];
    }
  }

  /** Every bounded string is valid UTF-8 and the longest prefix of its sanitised value that fits what was left. */
  lemma BoundedStrings(values: seq<Bytes>, budget: nat, i: nat)
    requires i < |values|
    ensures Total(Spend(values, budget).0) <= budget
    ensures var out := Spend(values, budget).0[i]; var room := Spend(values[..i], budget).1;
      && room == budget - Total(Spend(values, budget).0[..i])
      && Candidate(values[i], room, out)
      && (forall p | Candidate(values[i], room, p) :: p <= out)
  {
    SpendAt(values, budget, i);
    ClipIsLongest(values[i], Spend(values[..i], budget).1);
  }

  ghost predicate AllWhole(values: seq<Bytes>, budget: nat) {
    forall i | 0 <= i < |values| :: Spend(values, budget).0[i] == Sanitised(values[i])
  }

  lemma AllWholeSnoc(values: seq<Bytes>, value: Bytes, budget: nat)
    ensures AllWhole(values + [value], budget) <==>
      AllWhole(values, budget) && Clip(value, Spend(values, budget).1) == Sanitised(value)
  {
    hide Sanitised;
    hide Clip;
    SpendSnoc(values, value, budget);
    var all, out, front := values + [value], Spend(values + [value], budget).0, Spend(values, budget).0;
    assert forall i | 0 <= i < |values| :: all[i] == values[i] && out[i] == front[i];
    assert all[|values|] == value;
  }

  /** Nothing is dropped exactly when every string comes out whole. */
  lemma {:induction false} DroppedMeansShorter(values: seq<Bytes>, budget: nat)
    ensures !Dropped(values, budget) <==> AllWhole(values, budget)
    decreases |values|
  {
    if values != [] {
      var front, last := values[..|values| - 1], values[|values| - 1];
      DroppedMeansShorter(front, budget);
      assert values == front + [last];
      AllWholeSnoc(front, last, budget);
    }
  }

  /** Spending the same budget on strings already bounded changes nothing. */
  lemma {:induction false} SpendAgain(values: seq<Bytes>, budget: nat)
    ensures Spend(Spend(values, budget).0, budget) == Spend(values, budget)
    ensures !Dropped(Spend(values, budget).0, budget)
    decreases |values|
  {
    if values != [] {
      var front, last := values[..|values| - 1], values[|values| - 1];
      var (done, room) := Spend(front, budget);
      SpendAgain(front, budget);
      ClipIsLongest(last, room);
      ClipWhole(Clip(last, room), room);
      SanitisedIsValid(Clip(last, room));
      SpendSnoc(done, Clip(last, room), budget);
    }
  }

  // ---- The error ----

  function WithStrings(e: DatabaseError, s: seq<Bytes>, truncated: bool): DatabaseError
    requires |s| == 17
  {
    DatabaseError(s[0], s[1], s[2], s[3], s[4], s[5], truncated, s[6], s[7], e.position, e.internalPosition,
                  s[8], s[9], s[10], s[11], s[12], s[13], s[14], s[15], e.line, s[16])
  }

  function Bound(e: DatabaseError, budget: nat): DatabaseError {
    WithStrings(e, Spend(Strings(e), budget).0, e.truncated || Dropped(Strings(e), budget))
  }

  lemma StringsOfWith(e: DatabaseError, s: seq<Bytes>, truncated: bool)
    requires |s| == 17
    ensures Strings(WithStrings(e, s, truncated)) == s
  {
  }

  /** The bounded error stays within the budget, and bounding it again changes nothing. */
  lemma BoundOnce(e: DatabaseError, budget: nat)
    ensures Total(Strings(Bound(e, budget))) <= budget
    ensures Bound(Bound(e, budget), budget) == Bound(e, budget)
    ensures Bound(e, budget).truncated <==>
      e.truncated || exists i :: 0 <= i < 17 && Strings(Bound(e, budget))[i] != Sanitised(Strings(e)[i])
  {
    var out := Spend(Strings(e), budget).0;
    StringsOfWith(e, out, e.truncated || Dropped(Strings(e), budget));
    SpendAgain(Strings(e), budget);
    DroppedMeansShorter(Strings(e), budget);
  }

  /** The longest valid text at the start of the sanitised string that fits the room. */
  ghost predicate Longest(s: Bytes, room: int, p: Bytes) {
    room >= 0 && Candidate(s, room, p) && forall q | Candidate(s, room, q) :: q <= p
  }

  /** Field by field, what a bounded error holds: each string takes what it can of the room the ones before left. */
  ghost predicate IsBounded(e: DatabaseError, b: DatabaseError, room: int) {
    var afterKind := room - |b.kind|;
    var afterCode := afterKind - |b.code|;
    var afterExtendedCode := afterCode - |b.extendedCode|;
    var afterSeverity := afterExtendedCode - |b.severity|;
    var afterUnlocalized := afterSeverity - |b.severityUnlocalized|;
    var afterMessage := afterUnlocalized - |b.message|;
    var afterDetail := afterMessage - |b.detail|;
    var afterHint := afterDetail - |b.hint|;
    var afterQuery := afterHint - |b.internalQuery|;
    var afterWhere := afterQuery - |b.where_|;
    var afterSchema := afterWhere - |b.schemaName|;
    var afterTable := afterSchema - |b.tableName|;
    var afterColumn := afterTable - |b.columnName|;
    var afterType := afterColumn - |b.dataTypeName|;
    var afterConstraint := afterType - |b.constraintName|;
    var afterFile := afterConstraint - |b.file|;
    && Longest(e.kind, room, b.kind)
    && Longest(e.code, afterKind, b.code)
    && Longest(e.extendedCode, afterCode, b.extendedCode)
    && Longest(e.severity, afterExtendedCode, b.severity)
    && Longest(e.severityUnlocalized, afterSeverity, b.severityUnlocalized)
    && Longest(e.message, afterUnlocalized, b.message)
    && Longest(e.detail, afterMessage, b.detail)
    && Longest(e.hint, afterDetail, b.hint)
    && Longest(e.internalQuery, afterHint, b.internalQuery)
    && Longest(e.where_, afterQuery, b.where_)
    && Longest(e.schemaName, afterWhere, b.schemaName)
    && Longest(e.tableName, afterSchema, b.tableName)
    && Longest(e.columnName, afterTable, b.columnName)
    && Longest(e.dataTypeName, afterColumn, b.dataTypeName)
    && Longest(e.constraintName, afterType, b.constraintName)
    && Longest(e.file, afterConstraint, b.file)
    && Longest(e.routine, afterFile, b.routine)
    && b.position == e.position && b.internalPosition == e.internalPosition && b.line == e.line
  }

  /** The bounded error, field by field. */
  lemma BoundedFields(e: DatabaseError, budget: nat)
    ensures IsBounded(e, Bound(e, budget), budget)
  {
    hide Spend;
    hide Longest;
    hide Total;
    hide Dropped;
    var values, out := Strings(e), Spend(Strings(e), budget).0;
    var b := Bound(e, budget);
    StringsOfWith(e, out, b.truncated);
    RoomAfter(out, budget, 17);
    forall i | 0 <= i < 17 ensures Longest(values[i], Room(out, budget, i), out[i]) {
      BoundedIsLongest(values, budget, i);
      RoomAfter(out, budget, i);
    }
  }

  /** The room left after so many strings. */
  function Room(out: seq<Bytes>, budget: nat, n: nat): int
    requires n <= |out|
  {
    if n == 0 then budget else Room(out, budget, n - 1) - |out[n - 1]|
  }

  lemma {:induction false} RoomAfter(out: seq<Bytes>, budget: nat, n: nat)
    requires n <= |out|
    ensures Room(out, budget, n) == budget - Total(out[..n])
  {
    if n > 0 {
      RoomAfter(out, budget, n - 1);
      assert out[..n] == out[..n - 1] + [out[n - 1]];
      TotalSnoc(out[..n - 1], out[n - 1]);
    }
  }

  lemma BoundedIsLongest(values: seq<Bytes>, budget: nat, i: nat)
    requires i < |values|
    ensures Longest(values[i], budget - Total(Spend(values, budget).0[..i]), Spend(values, budget).0[i])
  {
    BoundedStrings(values, budget, i);
  }

  /** The strings as they are written, without any bound. */
  function SanitisedAll(values: seq<Bytes>): (s: seq<Bytes>)
    ensures |s| == |values|
    ensures forall i | 0 <= i < |values| :: s[i] == Sanitised(values[i])
  {
    seq(|values|, i requires 0 <= i < |values| => Sanitised(values[i]))
  }

  /** When all strings together fit the budget, each comes out whole. */
  lemma {:induction false} WholeWhenFits(values: seq<Bytes>, budget: nat)
    requires Total(SanitisedAll(values)) <= budget
    ensures Spend(values, budget).0 == SanitisedAll(values)
    decreases |values|
  {
    if values != [] {
      var front, last := values[..|values| - 1], values[|values| - 1];
      assert SanitisedAll(values) == SanitisedAll(front) + [Sanitised(last)];
      TotalSnoc(SanitisedAll(front), Sanitised(last));
      WholeWhenFits(front, budget);
      ClipIsLongest(last, Spend(front, budget).1);
    }
  }

  /** An error that fits is bounded to what it is, with the bytes that are no text replaced, and not marked. */
  lemma FittingError(e: DatabaseError, budget: nat)
    requires Total(SanitisedAll(Strings(e))) <= budget
    ensures Strings(Bound(e, budget)) == SanitisedAll(Strings(e)) && Bound(e, budget).truncated == e.truncated
  {
    WholeWhenFits(Strings(e), budget);
    BoundOnce(e, budget);
    StringsOfWith(e, SanitisedAll(Strings(e)), e.truncated || Dropped(Strings(e), budget));
  }

  /** The state boundDatabaseError's closure shares between its calls. */
  class Bounder {
    var remaining: int
    var originalBytes: int
    var truncated: bool
    ghost var budget: nat
    ghost var values: seq<Bytes>
    ghost var outputs: seq<Bytes>

    ghost predicate Valid()
      reads this
    {
      && (outputs, remaining) == Spend(values, budget)
      && truncated == Dropped(values, budget)
      && originalBytes == Total(values)
    }

    constructor (budget: nat)
      ensures Valid() && this.budget == budget && values == []
    {
      remaining, originalBytes, truncated := budget, 0, false;
      this.budget, values, outputs := budget, [], [];
    }

    lemma Spent()
      requires Valid()
      ensures outputs == Spend(values, budget).0
      ensures truncated == Dropped(values, budget) && originalBytes == Total(values)
    {
    }

    method BoundString(value: Bytes) returns (bounded: Bytes)
      requires Valid()
      modifies this
      ensures Valid() && budget == old(budget) && values == old(values) + [value]
      ensures outputs == old(outputs) + [bounded]
    {
      hide Spend;
      hide Dropped;
      hide Clip;
      hide Total;
      originalBytes := originalBytes + |value|;
      var dropped;
      bounded, remaining, dropped := BoundUtf8String(value, remaining);
      truncated := truncated || dropped;
      SpendSnoc(values, value, budget);
      TotalSnoc(values, value);
      values, outputs := values + [value], outputs + [bounded];
    }
  }

  /** Six calls of the closure in a row. */
  method BoundSix(b: Bounder, s0: Bytes, s1: Bytes, s2: Bytes, s3: Bytes, s4: Bytes, s5: Bytes)
    returns (r0: Bytes, r1: Bytes, r2: Bytes, r3: Bytes, r4: Bytes, r5: Bytes)
    requires b.Valid()
    modifies b
    ensures b.Valid() && b.budget == old(b.budget)
    ensures b.values == old(b.values) + [s0, s1, s2, s3, s4, s5]
    ensures b.outputs == old(b.outputs) + [r0, r1, r2, r3, r4, r5]
  {
    hide Bounder.Valid;
    r0 := b.BoundString(s0);
    r1 := b.BoundString(s1);
    r2 := b.BoundString(s2);
    r3 := b.BoundString(s3);
    r4 := b.BoundString(s4);
    r5 := b.BoundString(s5);
  }

  /** boundDatabaseError: each string in turn, then the truncation mark and the original size for the log. */
  method BoundDatabaseError(e: DatabaseError, budget: nat) returns (bounded: DatabaseError, originalBytes: int)
    ensures bounded == Bound(e, budget)
    ensures originalBytes == Total(Strings(e))
  {
    hide Bounder.Valid;
    hide Spend;
    hide Dropped;
    hide Total;
    var b := new Bounder(budget);
    var kind, code, extendedCode, severity, severityUnlocalized, message :=
      BoundSix(b, e.kind, e.code, e.extendedCode, e.severity, e.severityUnlocalized, e.message);
    var detail, hint, internalQuery, where_, schemaName, tableName :=
      BoundSix(b, e.detail, e.hint, e.internalQuery, e.where_, e.schemaName, e.tableName);
    var columnName := b.BoundString(e.columnName);
    var dataTypeName := b.BoundString(e.dataTypeName);
    var constraintName := b.BoundString(e.constraintName);
    var file := b.BoundString(e.file);
    var routine := b.BoundString(e.routine);
    assert b.values == Strings(e);
    b.Spent();
    bounded := DatabaseError(kind, code, extendedCode, severity, severityUnlocalized, message,
                             e.truncated || b.truncated,
                             detail, hint, e.position, e.internalPosition, internalQuery, where_, schemaName, tableName,
                             columnName, dataTypeName, constraintName, file, e.line, routine);
    originalBytes := b.originalBytes;
    assert b.outputs == Strings(bounded);
  }
}
