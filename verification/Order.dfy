/** Go's string order, and the strictly sorted sequence of a set. */
module Order {
  import opened Text

  /** Byte-wise, a prefix first. */
  predicate Less(a: Bytes, b: Bytes) {
    if a == [] then b != []
    else if b == [] then false
    else a[0] < b[0] || (a[0] == b[0] && Less(a[1..], b[1..]))
  }

  /** The first byte in which they differ decides, and a proper prefix comes first. */
  lemma {:induction false} LessMeans(a: Bytes, b: Bytes)
    ensures Less(a, b) <==>
            || (|a| < |b| && a == b[..|a|])
            || exists i :: 0 <= i < |a| && i < |b| && a[..i] == b[..i] && a[i] < b[i]
  {
    if a != [] && b != [] {
      LessMeans(a[1..], b[1..]);
      assert a == [a[0]] + a[1..] && b == [b[0]] + b[1..];
      if a[0] == b[0] {
        if i :| 0 <= i < |a| - 1 && i < |b| - 1 && a[1..][..i] == b[1..][..i] && a[1..][i] < b[1..][i] {
          assert a[..i + 1] == [a[0]] + a[1..][..i] && b[..i + 1] == [b[0]] + b[1..][..i];
          assert a[i + 1] < b[i + 1];
        }
        if i :| 0 <= i < |a| && i < |b| && a[..i] == b[..i] && a[i] < b[i] {
          assert i > 0;
          assert a[1..][..i - 1] == a[..i][1..] && b[1..][..i - 1] == b[..i][1..];
          assert a[1..][i - 1] < b[1..][i - 1];
        }
      } else {
        assert a[..0] == b[..0];
        assert forall i | 0 < i < |a| && i < |b| :: a[..i][0] != b[..i][0] && a[..i] != b[..i];
      }
    }
  }

  lemma {:induction false} LessIrreflexive(a: Bytes)
    ensures !Less(a, a)
  {
    if a != [] {
      LessIrreflexive(a[1..]);
    }
  }

  lemma {:induction false} LessTransitive(a: Bytes, b: Bytes, c: Bytes)
    requires Less(a, b) && Less(b, c)
    ensures Less(a, c)
  {
    if a != [] && a[0] == b[0] && b[0] == c[0] {
      LessTransitive(a[1..], b[1..], c[1..]);
    }
  }

  lemma {:induction false} LessTotal(a: Bytes, b: Bytes)
    ensures a == b || Less(a, b) || Less(b, a)
  {
    if a != [] && b != [] && a[0] == b[0] {
      LessTotal(a[1..], b[1..]);
      assert a == [a[0]] + a[1..] && b == [b[0]] + b[1..];
    }
  }

  ghost predicate Increasing(s: seq<Bytes>) {
    forall i, j | 0 <= i < j < |s| :: Less(s[i], s[j])
  }

  /** Neighbours in order are enough. */
  lemma {:induction false} IncreasingSnoc(s: seq<Bytes>, x: Bytes)
    requires Increasing(s) && (s != [] ==> Less(s[|s| - 1], x))
    ensures Increasing(s + [x])
  {
    hide Less;
    forall i | 0 <= i < |s| ensures Less(s[i], x) {
      if i < |s| - 1 {
        LessTransitive(s[i], s[|s| - 1], x);
      }
    }
  }

  lemma {:induction false} IncreasingTail(s: seq<Bytes>, i: nat, j: nat)
    requires Increasing(s) && i <= j <= |s|
    ensures Increasing(s[i..j])
  {
  }

  lemma {:induction false} IncreasingDistinct(s: seq<Bytes>, i: nat, j: nat)
    requires Increasing(s) && i < |s| && j < |s| && s[i] == s[j]
    ensures i == j
  {
    LessIrreflexive(s[i]);
  }

  lemma HasMember(s: seq<Bytes>)
    requires s != []
    ensures exists x :: x in s
  {
    assert s[0] in s;
  }

  /** There is one increasing sequence of a set. */
  lemma {:induction false} IncreasingUnique(s: seq<Bytes>, t: seq<Bytes>)
    requires Increasing(s) && Increasing(t)
    requires forall x :: x in s <==> x in t
    ensures s == t
    decreases |s|
  {
    hide Less;
    if s == [] {
      if t != [] { HasMember(t); }
    } else {
      assert s[0] in t;
      assert t[0] in s;
      FirstIsLeast(s, t[0]);
      FirstIsLeast(t, s[0]);
      if Less(s[0], t[0]) && Less(t[0], s[0]) { LessTransitive(s[0], t[0], s[0]); }
      LessIrreflexive(s[0]);
      assert s[0] == t[0];
      TailWithout(s);
      TailWithout(t);
      IncreasingUnique(s[1..], t[1..]);
      assert s == [s[0]] + s[1..] && t == [t[0]] + t[1..];
    }
  }

  lemma FirstIsLeast(s: seq<Bytes>, x: Bytes)
    requires Increasing(s) && x in s
    ensures s[0] == x || Less(s[0], x)
  {
    hide Less;
  }

  lemma TailWithout(s: seq<Bytes>)
    requires Increasing(s) && s != []
    ensures Increasing(s[1..])
    ensures forall x :: x in s[1..] <==> x in s && x != s[0]
  {
    hide Less;
    LessIrreflexive(s[0]);
    forall x | x in s && x != s[0] ensures x in s[1..] {
      var i :| 0 <= i < |s| && s[i] == x;
      assert s[1..][i - 1] == x;
    }
  }

  /** Inserts into an increasing sequence, keeping it so. */
  function Insert(s: seq<Bytes>, x: Bytes): (r: seq<Bytes>) {
    if s == [] || Less(s[|s| - 1], x) then s + [x]
    else if s[|s| - 1] == x then s
    else Insert(s[..|s| - 1], x) + [s[|s| - 1]]
  }

  lemma {:induction false} InsertSorted(s: seq<Bytes>, x: Bytes)
    requires Increasing(s)
    ensures Increasing(Insert(s, x))
    ensures forall y :: y in Insert(s, x) <==> y in s || y == x
    decreases |s|
  {
    hide Less;
    if s == [] || Less(s[|s| - 1], x) {
      IncreasingSnoc(s, x);
    } else if s[|s| - 1] != x {
      var init, last := s[..|s| - 1], s[|s| - 1];
      assert s == init + [last];
      LessTotal(last, x);
      InsertSorted(init, x);
      var r := Insert(init, x);
      assert r[|r| - 1] == x || r[|r| - 1] in init by { assert r[|r| - 1] in r; }
      IncreasingSnoc(r, last);
    }
  }

  /** The members of a finite set in increasing order. */
  ghost function SortedOf(s: set<Bytes>): (r: seq<Bytes>)
    ensures Increasing(r)
    ensures forall x :: x in r <==> x in s
  {
    if s == {} then []
    else
      var x :| x in s;
      InsertSorted(SortedOf(s - {x}), x);
      Insert(SortedOf(s - {x}), x)
  }

  lemma IncreasingDiffer(s: seq<Bytes>)
    requires Increasing(s)
    ensures forall i, j | 0 <= i < j < |s| :: s[i] != s[j]
  {
    hide Less;
    forall i, j | 0 <= i < j < |s| ensures s[i] != s[j] {
      LessIrreflexive(s[i]);
    }
  }

  lemma {:induction false} DistinctCount(s: seq<Bytes>)
    requires forall i, j | 0 <= i < j < |s| :: s[i] != s[j]
    ensures |set x | x in s| == |s|
  {
    if s != [] {
      var init, last := s[..|s| - 1], s[|s| - 1];
      DistinctCount(init);
      assert s == init + [last];
      assert (set x | x in s) == (set x | x in init) + {last};
    }
  }

  lemma SortedCount(s: set<Bytes>)
    ensures |SortedOf(s)| == |s|
  {
    hide SortedOf;
    hide Less;
    var r := SortedOf(s);
    IncreasingDiffer(r);
    DistinctCount(r);
    assert s == set x | x in r;
  }

  /** sort.Strings on the members of a set. */
  method SortStrings(s: set<Bytes>) returns (r: seq<Bytes>)
    ensures r == SortedOf(s)
  {
    r := [];
    var rest := s;
    while rest != {}
      invariant rest <= s && Increasing(r)
      invariant forall x :: x in r <==> x in s - rest
      decreases rest
    {
      var x :| x in rest;
      rest := rest - {x};
      InsertSorted(r, x);
      r := Insert(r, x);
    }
    IncreasingUnique(r, SortedOf(s));
  }
}
