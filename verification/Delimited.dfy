/** Encoded strings and numbers delimit themselves: what follows them cannot be taken for a part of them. */
module Delimited {
  import opened Common
  import opened Text
  import opened Json
  import opened Timestamp

  /** Where the contents of a JSON string end: at the first quotation mark that is not escaped. */
  function StringEnd(s: Bytes): (n: nat)
    ensures n <= |s|
  {
    if s == [] || s[0] == QUOTE then 0
    else if s[0] == BACKSLASH && |s| > 1 then 2 + StringEnd(s[2..])
    else 1 + StringEnd(s[1..])
  }

  lemma {:induction false} StepOver(p: Bytes, rest: Bytes)
    requires forall i | 0 <= i < |p| :: p[i] != QUOTE && p[i] != BACKSLASH
    ensures StringEnd(p + rest) == |p| + StringEnd(rest)
    decreases |p|
  {
    if p == [] {
      assert p + rest == rest;
    } else {
      assert (p + rest)[1..] == p[1..] + rest;
      StepOver(p[1..], rest);
    }
  }

  lemma StepOverEscaped(letter: byte, p: Bytes, rest: Bytes)
    requires forall i | 0 <= i < |p| :: p[i] != QUOTE && p[i] != BACKSLASH
    ensures StringEnd([BACKSLASH, letter] + p + rest) == 2 + |p| + StringEnd(rest)
  {
    assert ([BACKSLASH, letter] + p + rest)[2..] == p + rest;
    StepOver(p, rest);
  }

  lemma StepOverRune(r: Bytes, rest: Bytes)
    requires r != [] && RuneSize(r) == |r|
    ensures StringEnd(EscapeRune(r) + rest) == |EscapeRune(r)| + StringEnd(rest)
  {
    var e := EscapeRune(r);
    if e == r {
      StepOver(e, rest);
    } else {
      assert e == [BACKSLASH, e[1]] + e[2..];
      StepOverEscaped(e[1], e[2..], rest);
      assert e + rest == [BACKSLASH, e[1]] + e[2..] + rest;
    }
  }

  lemma {:induction false} EscapeEnds(s: Bytes, rest: Bytes)
    ensures StringEnd(Escape(s) + [QUOTE] + rest) == |Escape(s)|
    decreases |s|
  {
    var tail := [QUOTE] + rest;
    if s == [] {
      assert Escape(s) + tail == tail;
    } else {
      var n := RuneSize(s);
      var head := if n == 0 then INVALID else EscapeRune(s[..n]);
      var next := if n == 0 then s[1..] else s[n..];
      EscapeEnds(next, rest);
      assert Escape(s) + [QUOTE] + rest == head + (Escape(next) + [QUOTE] + rest);
      if n == 0 {
        StepOverEscaped(117, [102, 102, 102, 100], Escape(next) + [QUOTE] + rest);
        assert INVALID == [BACKSLASH, 117] + [102, 102, 102, 100];
      } else {
        RunePrefix(s);
        StepOverRune(s[..n], Escape(next) + [QUOTE] + rest);
      }
    }
  }

  /** Two texts that begin with encoded strings and are equal begin with the same one. */
  lemma QuotePeel(a: Bytes, s: Bytes, b: Bytes, t: Bytes)
    requires Quote(a) + s == Quote(b) + t
    ensures Sanitised(a) == Sanitised(b) && s == t
    ensures ValidUtf8(a) && ValidUtf8(b) ==> a == b
  {
    hide Escape;
    hide StringEnd;
    hide Unescape;
    var x, y := Quote(a) + s, Quote(b) + t;
    assert x[1..] == Escape(a) + [QUOTE] + s;
    assert y[1..] == Escape(b) + [QUOTE] + t;
    EscapeEnds(a, s);
    EscapeEnds(b, t);
    assert x[1..][..|Escape(a)|] == Escape(a) && y[1..][..|Escape(b)|] == Escape(b);
    assert x[1..][|Escape(a)| + 1..] == s && y[1..][|Escape(b)| + 1..] == t;
    UnescapeEscape(a);
    UnescapeEscape(b);
  }

  lemma LiteralPeel(l: Bytes, s: Bytes, t: Bytes)
    requires l + s == l + t
    ensures s == t
  {
    assert (l + s)[|l|..] == s && (l + t)[|l|..] == t;
  }

  function DigitsEnd(s: Bytes): (n: nat)
    ensures n <= |s|
  {
    if s == [] || !IsDigit(s[0]) then 0 else 1 + DigitsEnd(s[1..])
  }

  lemma {:induction false} DigitsEndAt(d: Bytes, s: Bytes)
    requires AllDigits(d) && s != [] && !IsDigit(s[0])
    ensures DigitsEnd(d + s) == |d|
  {
    if d == [] {
      assert d + s == s;
    } else {
      assert (d + s)[1..] == d[1..] + s;
      DigitsEndAt(d[1..], s);
    }
  }

  lemma DecimalPeel(m: nat, s: Bytes, n: nat, t: Bytes)
    requires s != [] && !IsDigit(s[0]) && t != [] && !IsDigit(t[0])
    requires Decimal(m) + s == Decimal(n) + t
    ensures m == n && s == t
  {
    hide Decimal;
    var x, y := Decimal(m) + s, Decimal(n) + t;
    DecimalNumber(m);
    DecimalNumber(n);
    DigitsEndAt(Decimal(m), s);
    DigitsEndAt(Decimal(n), t);
    assert x[..|Decimal(m)|] == Decimal(m) && y[..|Decimal(n)|] == Decimal(n);
    assert x[|Decimal(m)|..] == s && y[|Decimal(n)|..] == t;
  }

  // ---- Reading a text from its start ----

  function Skip(literal: Bytes, s: Bytes): Option<Bytes> {
    if |literal| <= |s| && s[..|literal|] == literal then Some(s[|literal|..]) else None
  }

  lemma SkipLiteral(literal: Bytes, rest: Bytes)
    ensures Skip(literal, literal + rest) == Some(rest)
  {
    assert (literal + rest)[..|literal|] == literal && (literal + rest)[|literal|..] == rest;
  }

  /** A JSON string, and what follows it. */
  function ReadString(s: Bytes): Option<(Bytes, Bytes)> {
    if s == [] || s[0] != QUOTE then None
    else
      var end := StringEnd(s[1..]);
      if end == |s| - 1 || Unescape(s[1..][..end]).None? then None
      else Some((Unescape(s[1..][..end]).value, s[1..][end + 1..]))
  }

  lemma ReadQuoted(a: Bytes, rest: Bytes)
    ensures ReadString(Quote(a) + rest) == Some((Sanitised(a), rest))
  {
    hide Escape;
    hide StringEnd;
    hide Unescape;
    var s := Quote(a) + rest;
    assert s[1..] == Escape(a) + [QUOTE] + rest;
    EscapeEnds(a, rest);
    UnescapeEscape(a);
    assert s[1..][..|Escape(a)|] == Escape(a) && s[1..][|Escape(a)| + 1..] == rest;
  }

  /** A natural number, and what follows it. */
  function ReadNumber(s: Bytes): Option<(nat, Bytes)> {
    var end := DigitsEnd(s);
    if end == 0 || !AllDigits(s[..end]) then None else Some((NumberOf(s[..end]), s[end..]))
  }

  lemma ReadDecimal(n: nat, rest: Bytes)
    requires rest != [] && !IsDigit(rest[0])
    ensures ReadNumber(Decimal(n) + rest) == Some((n, rest))
  {
    hide Decimal;
    var s := Decimal(n) + rest;
    DecimalNumber(n);
    DigitsEndAt(Decimal(n), rest);
    assert s[..|Decimal(n)|] == Decimal(n) && s[|Decimal(n)|..] == rest;
  }
}
