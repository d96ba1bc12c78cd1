/**
  Go strings, one `char` per byte, under the byte-wise order that `cmp.Compare`, `slices.Sort` and
  `slices.Compact` use. A set of strings has exactly one strictly increasing listing; the rest of
  the project relies on that to compare role lists read at different times.
 */
module Text {

  predicate Leq(a: string, b: string) {
    a == "" || (b != "" && (a[0] < b[0] || (a[0] == b[0] && Leq(a[1..], b[1..]))))
  }

  lemma {:induction false} LeqTotal(a: string, b: string)
    ensures Leq(a, b) || Leq(b, a)
  {
    if a != "" && b != "" {
      LeqTotal(a[1..], b[1..]);
    }
  }

  lemma {:induction false} LeqAntisymmetric(a: string, b: string)
    requires Leq(a, b) && Leq(b, a)
    ensures a == b
  {
    if a != "" {
      LeqAntisymmetric(a[1..], b[1..]);
      assert a == [a[0]] + a[1..] && b == [b[0]] + b[1..];
    }
  }

  lemma {:induction false} LeqTransitive(a: string, b: string, c: string)
    requires Leq(a, b) && Leq(b, c)
    ensures Leq(a, c)
  {
    if a != "" && a[0] == b[0] == c[0] {
      LeqTransitive(a[1..], b[1..], c[1..]);
    }
  }

  predicate Sorted(s: seq<string>) {
    forall i, j | 0 <= i < j < |s| :: Leq(s[i], s[j])
  }

  predicate Distinct<T(==)>(s: seq<T>) {
    forall i, j | 0 <= i < j < |s| :: s[i] != s[j]
  }

  predicate StrictlySorted(s: seq<string>) {
    Sorted(s) && Distinct(s)
  }

  function Elements<T>(s: seq<T>): set<T> {
    set x | x in s
  }

  function Insert(x: string, s: seq<string>): (r: seq<string>)
    requires Sorted(s)
    ensures Sorted(r) && multiset(r) == multiset(s) + multiset{x}
  {
    if s == [] then [x]
    else if Leq(x, s[0]) then
      assert forall j | 0 <= j < |s| :: Leq(x, s[j]) by {
        forall j | 0 <= j < |s| ensures Leq(x, s[j]) {
          if j > 0 { LeqTransitive(x, s[0], s[j]); }
        }
      }
      [x] + s
    else
      var rest := Insert(x, s[1..]);
      assert s == [s[0]] + s[1..];
      assert forall y | y in rest :: Leq(s[0], y) by {
        LeqTotal(x, s[0]);
        forall y | y in rest ensures Leq(s[0], y) {
          assert y in multiset(rest);
          assert y == x || y in s[1..];
        }
      }
      [s[0]] + rest
  }

  /** `slices.Sort`. */
  function Sort(s: seq<string>): (r: seq<string>)
    ensures Sorted(r) && multiset(r) == multiset(s)
  {
    if s == [] then []
    else
      assert s == [s[0]] + s[1..];
      Insert(s[0], Sort(s[1..]))
  }

  /** `slices.Compact`: drops every element equal to its predecessor. */
  function Compact(s: seq<string>): (r: seq<string>)
    ensures forall x :: x in r <==> x in s
    ensures s != [] ==> r != [] && r[0] == s[0]
  {
    if |s| <= 1 then s
    else if s[0] == s[1] then
      assert s == [s[0]] + s[1..];
      Compact(s[1..])
    else
      assert s == [s[0]] + s[1..];
      [s[0]] + Compact(s[1..])
  }

  lemma {:induction false} CompactStrict(s: seq<string>)
    requires Sorted(s)
    ensures StrictlySorted(Compact(s))
  {
    if |s| > 1 {
      CompactStrict(s[1..]);
      if s[0] != s[1] {
        var rest := Compact(s[1..]);
        forall x | x in rest ensures Leq(s[0], x) && s[0] != x {
          assert x in s[1..];
          var k :| 1 <= k < |s| && s[k] == x;
          if s[0] == x {
            if k > 1 { assert Leq(s[1], s[k]); }
            LeqAntisymmetric(s[0], s[1]);
            assert false;
          }
        }
      }
    }
  }

  /** A sorted sequence without repetitions is determined by its elements. */
  lemma {:induction false} StrictlySortedUnique(r: seq<string>, s: seq<string>)
    requires StrictlySorted(r) && StrictlySorted(s)
    requires forall x :: x in r <==> x in s
    ensures r == s
  {
    assert r != [] ==> r[0] in s;
    assert s != [] ==> s[0] in r;
    if r != [] {
      var i :| 0 <= i < |s| && s[i] == r[0];
      var j :| 0 <= j < |r| && r[j] == s[0];
      if i > 0 || j > 0 {
        assert Leq(s[0], r[0]) && Leq(r[0], s[0]);
        LeqAntisymmetric(r[0], s[0]);
      }
      forall x ensures x in r[1..] <==> x in s[1..] {
        assert x in r[1..] <==> x in r && x != r[0];
        assert x in s[1..] <==> x in s && x != s[0];
      }
      StrictlySortedUnique(r[1..], s[1..]);
      assert r == [r[0]] + r[1..] && s == [s[0]] + s[1..];
    }
  }

  ghost predicate Lists(r: seq<string>, s: set<string>) {
    StrictlySorted(r) && forall x :: x in r <==> x in s
  }

  /** The one strictly increasing listing of a set. */
  ghost function Listing(s: set<string>): (r: seq<string>)
    ensures Lists(r, s)
  {
    ListingExists(s);
    var r :| Lists(r, s);
    r
  }

  lemma {:induction false} ListingExists(s: set<string>)
    ensures exists r :: Lists(r, s)
  {
    if s == {} {
      assert Lists([], s);
    } else {
      var x :| x in s;
      ListingExists(s - {x});
      var rest :| Lists(rest, s - {x});
      InsertNew(x, rest);
      assert Lists(Insert(x, rest), s);
    }
  }

  lemma InsertNew(x: string, s: seq<string>)
    requires StrictlySorted(s) && x !in s
    ensures StrictlySorted(Insert(x, s))
    ensures forall y :: y in Insert(x, s) <==> y == x || y in s
  {
    var r := Insert(x, s);
    forall y ensures y in r <==> y == x || y in s {
      assert y in r <==> y in multiset(r);
    }
    DistinctByCount(s);
    forall y | y in r ensures multiset(r)[y] == 1 {
      assert y == x || y in multiset(s);
    }
    CountDistinct(r);
  }

  lemma {:induction false} DistinctByCount(s: seq<string>)
    requires Distinct(s)
    ensures forall y | y in s :: multiset(s)[y] == 1
  {
    if s != [] {
      DistinctByCount(s[1..]);
      assert s == [s[0]] + s[1..];
      assert s[0] !in s[1..];
      assert s[0] !in multiset(s[1..]);
    }
  }

  lemma {:induction false} CountDistinct(s: seq<string>)
    requires forall y | y in s :: multiset(s)[y] == 1
    ensures Distinct(s)
  {
    if s != [] {
      assert s == [s[0]] + s[1..];
      assert multiset(s)[s[0]] == 1;
      assert s[0] !in multiset(s[1..]);
      forall y | y in s[1..] ensures multiset(s[1..])[y] == 1 {
        assert y in multiset(s[1..]);
        assert y in s;
      }
      CountDistinct(s[1..]);
      forall i, j | 0 <= i < j < |s| ensures s[i] != s[j] {
        assert s[j] == s[1..][j - 1];
        if i > 0 { assert s[i] == s[1..][i - 1]; }
      }
    }
  }

  /** Sorting rows that carry no repetitions lists the set of them. */
  lemma SortIsListing(rows: seq<string>)
    requires Distinct(rows)
    ensures Sort(rows) == Listing(Elements(rows))
  {
    var r := Sort(rows);
    forall y ensures y in r <==> y in rows {
      assert y in r <==> y in multiset(r);
    }
    DistinctByCount(rows);
    CountDistinct(r);
    StrictlySortedUnique(r, Listing(Elements(rows)));
  }

  /** Sorting and compacting any rows lists the set of them. */
  lemma NormalizedIsListing(rows: seq<string>)
    ensures Compact(Sort(rows)) == Listing(Elements(rows))
  {
    var r := Sort(rows);
    forall y ensures y in r <==> y in rows {
      assert y in r <==> y in multiset(r);
    }
    CompactStrict(r);
    StrictlySortedUnique(Compact(r), Listing(Elements(rows)));
  }

  /** Appending a new element to a listing and sorting again lists the larger set. */
  lemma ListWith(before: seq<string>, s: set<string>, x: string)
    requires before == Listing(s) && x !in s
    ensures Sort(before + [x]) == Listing(s + {x})
  {
    assert x !in before;
    assert Distinct(before + [x]);
    SortIsListing(before + [x]);
    assert Elements(before + [x]) == s + {x} by {
      forall y ensures y in Elements(before + [x]) <==> y in s + {x} {
        assert y in before + [x] <==> y in before || y == x;
      }
    }
  }

  // ---------- white space ----------

  function Byte(c: char): int {
    c as int
  }

  /** The length of the white-space character that UTF-8 text starts with; zero when it starts with none. */
  function WhiteLen(s: string): (n: nat)
    ensures n <= |s|
  {
    if s == "" then 0
    else if 9 <= Byte(s[0]) <= 13 || Byte(s[0]) == 32 then 1
    else if |s| >= 2 && Byte(s[0]) == 0xC2 && (Byte(s[1]) == 0x85 || Byte(s[1]) == 0xA0) then 2
    else if |s| >= 3 && WideWhite(Byte(s[0]), Byte(s[1]), Byte(s[2])) then 3
    else 0
  }

  /** U+1680, U+2000 to U+200A, U+2028, U+2029, U+202F, U+205F and U+3000. */
  predicate WideWhite(a: int, b: int, c: int) {
    || (a == 0xE1 && b == 0x9A && c == 0x80)
    || (a == 0xE2 && b == 0x80 && (0x80 <= c <= 0x8A || c == 0xA8 || c == 0xA9 || c == 0xAF))
    || (a == 0xE2 && b == 0x81 && c == 0x9F)
    || (a == 0xE3 && b == 0x80 && c == 0x80)
  }

  /** Whether `strings.TrimSpace` leaves nothing. */
  predicate Blank(s: string) {
    s == "" || (WhiteLen(s) > 0 && Blank(s[WhiteLen(s)..]))
  }

  predicate WhiteSpace(p: string) {
    p != "" && WhiteLen(p) == |p|
  }

  function Concat(parts: seq<string>): string {
    if parts == [] then "" else parts[0] + Concat(parts[1..])
  }

  predicate AllWhite(parts: seq<string>) {
    forall p | p in parts :: WhiteSpace(p)
  }

  /** A white-space character in front is recognised whatever follows. */
  lemma WhiteInFront(p: string, s: string)
    requires WhiteSpace(p)
    ensures WhiteLen(p + s) == |p| && (p + s)[|p|..] == s
  {
    var t := p + s;
    assert t[0] == p[0];
    assert |p| >= 2 ==> t[1] == p[1];
    assert |p| >= 3 ==> t[2] == p[2];
  }

  lemma WhiteFront(s: string)
    requires WhiteLen(s) > 0
    ensures WhiteSpace(s[..WhiteLen(s)])
  {
    var p := s[..WhiteLen(s)];
    assert p[0] == s[0];
  }

  lemma {:induction false} BlankSplits(s: string) returns (parts: seq<string>)
    requires Blank(s)
    ensures AllWhite(parts) && Concat(parts) == s
    decreases |s|
  {
    if s == "" {
      parts := [];
    } else {
      var n := WhiteLen(s);
      WhiteFront(s);
      var rest := BlankSplits(s[n..]);
      parts := [s[..n]] + rest;
      assert parts[1..] == rest && parts[0] == s[..n];
      assert s[..n] + s[n..] == s;
    }
  }

  lemma {:induction false} WhiteIsBlank(parts: seq<string>)
    requires AllWhite(parts)
    ensures Blank(Concat(parts))
  {
    if parts != [] {
      WhiteIsBlank(parts[1..]);
      WhiteInFront(parts[0], Concat(parts[1..]));
    }
  }

  /** A text is blank exactly when it is a run of white-space characters. */
  lemma BlankIsAllWhite(s: string)
    ensures Blank(s) <==> exists parts: seq<string> :: AllWhite(parts) && Concat(parts) == s
  {
    if Blank(s) {
      var parts := BlankSplits(s);
    }
    forall parts: seq<string> | AllWhite(parts) && Concat(parts) == s ensures Blank(s) {
      WhiteIsBlank(parts);
    }
  }

  /** On plain ASCII: tab, line feed, vertical tab, form feed, carriage return and space. */
  lemma {:induction false} AsciiBlank(s: string)
    requires forall c | c in s :: c as int < 128
    ensures Blank(s) <==> forall c | c in s :: c as int in {9, 10, 11, 12, 13, 32}
    decreases |s|
  {
    if s != "" {
      assert s == [s[0]] + s[1..];
      assert forall c | c in s[1..] :: c in s;
      AsciiBlank(s[1..]);
      assert s[0] in s && (|s| > 1 ==> s[1] in s);
      assert WhiteLen(s) == if s[0] as int in {9, 10, 11, 12, 13, 32} then 1 else 0;
    }
  }
}
