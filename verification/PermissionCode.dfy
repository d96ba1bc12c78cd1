/**
  Permission codes `domain:resource:action` and the wildcard policies `prefix:*`: which strings are
  codes, and when a code held as a policy covers a requested code.
 */
module PermissionCodes {
  import opened Wrappers
  import opened AccessErrors

  const SEPARATOR := ':'
  const WILDCARD := '*'
  const CODE_SEGMENTS := 3
  const MAX_CODE_LEN := 128
  const MAX_SEGMENT_LEN := 64

  // ---------- splitting ----------

  /** `strings.Split(s, ":")`. */
  function Split(s: string): (parts: seq<string>)
    ensures |parts| >= 1
  {
    if s == "" then [""]
    else
      var rest := Split(s[1..]);
      if s[0] == SEPARATOR then [""] + rest else [[s[0]] + rest[0]] + rest[1..]
  }

  /** `strings.Join(parts, ":")`. */
  function Join(parts: seq<string>): string
    requires |parts| >= 1
  {
    if |parts| == 1 then parts[0] else parts[0] + [SEPARATOR] + Join(parts[1..])
  }

  lemma {:induction false} JoinSplit(s: string)
    ensures Join(Split(s)) == s
    ensures forall p | p in Split(s) :: SEPARATOR !in p
  {
    if s != "" {
      var rest := Split(s[1..]);
      JoinSplit(s[1..]);
      assert s == [s[0]] + s[1..];
      if s[0] == SEPARATOR {
        assert ([""] + rest)[1..] == rest;
      } else {
        var parts := [[s[0]] + rest[0]] + rest[1..];
        assert parts[1..] == rest[1..];
        if |rest| > 1 {
          assert Join(parts) == [s[0]] + rest[0] + [SEPARATOR] + Join(rest[1..]);
          assert Join(rest) == rest[0] + [SEPARATOR] + Join(rest[1..]);
        }
        assert Join(parts) == [s[0]] + Join(rest);
        forall p | p in parts ensures SEPARATOR !in p {
          if p != parts[0] { assert p in rest[1..]; } else { assert rest[0] in rest; }
        }
      }
    }
  }

  /** A separator between two strings separates their segments. */
  lemma {:induction false} SplitAtSeparator(a: string, b: string)
    ensures Split(a + [SEPARATOR] + b) == Split(a) + Split(b)
  {
    var s := a + [SEPARATOR] + b;
    if a == "" {
      assert s[1..] == b && s[0] == SEPARATOR;
    } else {
      assert s[1..] == a[1..] + [SEPARATOR] + b && s[0] == a[0];
      SplitAtSeparator(a[1..], b);
      ConsSegment(a[0], Split(a[1..]), Split(b));
    }
  }

  /** Putting one byte in front of joined segments touches the first group only. */
  lemma ConsSegment(c: char, xs: seq<string>, ys: seq<string>)
    requires |xs| >= 1
    ensures [""] + (xs + ys) == ([""] + xs) + ys
    ensures [[c] + (xs + ys)[0]] + (xs + ys)[1..] == ([[c] + xs[0]] + xs[1..]) + ys
  {
  }

  lemma {:induction false} JoinAppend(xs: seq<string>, ys: seq<string>)
    requires |xs| >= 1 && |ys| >= 1
    ensures Join(xs + ys) == Join(xs) + [SEPARATOR] + Join(ys)
  {
    if |xs| == 1 {
      assert (xs + ys)[1..] == ys;
    } else {
      assert (xs + ys)[1..] == xs[1..] + ys;
      JoinAppend(xs[1..], ys);
      assert (xs + ys)[0] == xs[0];
      var t := Join(xs[1..]);
      assert xs[0] + [SEPARATOR] + (t + [SEPARATOR] + Join(ys)) == (xs[0] + [SEPARATOR] + t) + [SEPARATOR] + Join(ys);
    }
  }

  // ---------- which strings are codes ----------

  predicate IsLetter(c: char) {
    'a' <= c <= 'z' || 'A' <= c <= 'Z'
  }

  predicate IsDigit(c: char) {
    '0' <= c <= '9'
  }

  /** A segment without wildcard: letters and digits, a letter first. */
  predicate IdentifierSegment(s: string) {
    s != "" && IsLetter(s[0]) && forall i | 0 <= i < |s| :: IsLetter(s[i]) || IsDigit(s[i])
  }

  /** The two legal shapes: exactly three identifiers, or identifiers followed by one final `*`. */
  predicate ValidCode(s: string) {
    s == "" ||
    var segs := Split(s);
    && |s| <= MAX_CODE_LEN
    && (forall i | 0 <= i < |segs| :: |segs[i]| <= MAX_SEGMENT_LEN)
    && (forall i | 0 <= i < |segs| - 1 :: IdentifierSegment(segs[i]))
    && (if segs[|segs| - 1] == [WILDCARD] then |segs| >= 2
        else |segs| == CODE_SEGMENTS && IdentifierSegment(segs[|segs| - 1]))
  }

  /** The codes of the ASCII letters. */
  predicate AsciiLetter(c: char) {
    0x41 <= c as int <= 0x5A || 0x61 <= c as int <= 0x7A
  }

  /** The codes of the ASCII digits. */
  predicate AsciiDigit(c: char) {
    0x30 <= c as int <= 0x39
  }

  /** A word: one letter, then letters and digits. */
  lemma SegmentsAreWords(p: string)
    ensures IdentifierSegment(p) <==>
              p != "" && AsciiLetter(p[0]) && forall c | c in p :: AsciiLetter(c) || AsciiDigit(c)
  {
    assert forall c: char :: IsLetter(c) <==> AsciiLetter(c);
    assert forall c: char :: IsDigit(c) <==> AsciiDigit(c);
  }

  /** `a:b:c` is a code exactly for three words, or two words and a star, of at most 64 bytes each and 128 in all. */
  lemma ThreeSegmentCodes(a: string, b: string, c: string)
    requires ':' !in a && ':' !in b && ':' !in c
    ensures var s := a + ":" + (b + ":" + c);
            ValidCode(s) <==>
              && |a| <= 64 && |b| <= 64 && |c| <= 64 && |s| <= 128
              && IdentifierSegment(a) && IdentifierSegment(b) && (IdentifierSegment(c) || c == "*")
  {
    SplitAtSeparator(a, b + ":" + c);
    SplitAtSeparator(b, c);
    SplitPlain(a);
    SplitPlain(b);
    SplitPlain(c);
    var segs := Split(a + ":" + (b + ":" + c));
    assert segs == [a, b, c] && segs[0] == a && segs[1] == b && segs[2] == c;
  }

  /** `a:b` is a code only for a word and a star; a single segment never is. */
  lemma ShortCodes(a: string, b: string)
    requires ':' !in a && ':' !in b
    ensures ValidCode(a + ":" + b) <==> |a| <= 64 && IdentifierSegment(a) && b == "*"
    ensures ValidCode(a) <==> a == ""
  {
    SplitAtSeparator(a, b);
    SplitPlain(a);
    SplitPlain(b);
    var segs := Split(a + ":" + b);
    assert segs == [a, b] && segs[0] == a && segs[1] == b;
  }

  /** Longer ones need the final star, and words before it. */
  lemma LongCodes(s: string)
    requires |Split(s)| >= 4
    ensures ValidCode(s) <==>
              && |s| <= 128 && Split(s)[|Split(s)| - 1] == "*"
              && forall i | 0 <= i < |Split(s)| - 1 :: |Split(s)[i]| <= 64 && IdentifierSegment(Split(s)[i])
  {
  }

  method ValidPermissionSegment(segment: string) returns (ok: bool)
    ensures ok <==> IdentifierSegment(segment)
  {
    for i := 0 to |segment|
      invariant forall j | 0 <= j < i :: IsLetter(segment[j]) || IsDigit(segment[j])
      invariant i > 0 ==> IsLetter(segment[0])
    {
      if i == 0 && !IsLetter(segment[i]) {
        return false;
      }
      if !IsLetter(segment[i]) && !IsDigit(segment[i]) {
        return false;
      }
    }
    ok := segment != "";
  }

  datatype PermissionCode = PermissionCode(value: string) {

    predicate IsZero() {
      value == ""
    }

    predicate HasWildcard() {
      WILDCARD in value
    }

    /** Whether this code, held as a policy, covers the requested code. */
    predicate Covers(target: PermissionCode) {
      if IsZero() || target.IsZero() then false
      else
        var i := Index(value, WILDCARD);
        if i < 0 then value == target.value else value[..i] <= target.value
    }
  }

  /** The values `NewPermissionCode` constructs. */
  predicate Constructible(c: PermissionCode) {
    ValidCode(c.value)
  }

  method NewPermissionCode(s: string) returns (r: Result<PermissionCode, AccessError>)
    ensures r == if ValidCode(s) then Success(PermissionCode(s)) else Failure(InvalidPermissionCode)
  {
    if s == "" {
      return Success(PermissionCode(""));
    }
    if |s| > MAX_CODE_LEN {
      return Failure(InvalidPermissionCode);
    }
    var segments := Split(s);
    SegmentFacts(s);
    if |segments| < 2 {
      return Failure(InvalidPermissionCode);
    }
    for i := 0 to |segments|
      invariant forall j | 0 <= j < i :: 0 < |segments[j]| <= MAX_SEGMENT_LEN
      invariant forall j | 0 <= j < i && j < |segments| - 1 :: IdentifierSegment(segments[j])
      invariant i == |segments| ==>
                  IdentifierSegment(segments[|segments| - 1]) || segments[|segments| - 1] == [WILDCARD]
    {
      var seg := segments[i];
      IdentifierHasNoWildcard(seg);
      if seg == "" {
        return Failure(InvalidPermissionCode);
      }
      if |seg| > MAX_SEGMENT_LEN {
        return Failure(InvalidPermissionCode);
      }
      if WILDCARD !in seg {
        var ok := ValidPermissionSegment(seg);
        if !ok {
          assert !IdentifierSegment(segments[i]);
          return Failure(InvalidPermissionCode);
        }
        continue;
      }
      if seg != [WILDCARD] {
        assert !IdentifierSegment(segments[i]);
        return Failure(InvalidPermissionCode);
      }
      if i != |segments| - 1 {
        assert !IdentifierSegment(segments[i]);
        return Failure(InvalidPermissionCode);
      }
    }
    IdentifiersHaveNoWildcard(segments);
    WildcardBySegments(s);
    assert segments[|segments| - 1] in segments;
    assert HasSuffix(s, [SEPARATOR, WILDCARD]) ==> s[|s| - 1] == WILDCARD;
    assert forall p | p in segments :: IdentifierSegment(p) || p == segments[|segments| - 1];
    if !HasSuffix(s, [SEPARATOR, WILDCARD]) && WILDCARD !in s {
      if |segments| != CODE_SEGMENTS {
        return Failure(InvalidPermissionCode);
      }
    }
    r := Success(PermissionCode(s));
  }

  predicate HasSuffix(s: string, suffix: string) {
    |suffix| <= |s| && s[|s| - |suffix|..] == suffix
  }

  /** `strings.Index` for a single byte; -1 when absent. */
  function Index(s: string, c: char): (i: int)
    ensures -1 <= i < |s|
    ensures i < 0 <==> c !in s
    ensures i >= 0 ==> s[i] == c && c !in s[..i]
  {
    if s == "" then -1
    else if s[0] == c then 0
    else
      var i := Index(s[1..], c);
      assert s == [s[0]] + s[1..];
      if i < 0 then -1 else
        assert s[..i + 1] == [s[0]] + s[1..][..i];
        i + 1
  }

  lemma {:induction false} IndexIs(s: string, c: char, i: nat)
    requires i < |s| && s[i] == c && c !in s[..i]
    ensures Index(s, c) == i
  {
  }

  lemma IdentifierHasNoWildcard(seg: string)
    ensures IdentifierSegment(seg) ==> WILDCARD !in seg
  {
  }

  lemma IdentifiersHaveNoWildcard(segs: seq<string>)
    ensures forall p | p in segs && IdentifierSegment(p) :: WILDCARD !in p
  {
  }

  lemma SegmentFacts(s: string)
    ensures |Split(s)| == 1 ==> Split(s)[0] == s
  {
  }

  /** A byte other than the separator occurs in a string exactly when it occurs in one of its segments. */
  lemma {:induction false} WildcardBySegments(s: string)
    ensures WILDCARD in s <==> exists p :: p in Split(s) && WILDCARD in p
  {
    if s != "" {
      WildcardBySegments(s[1..]);
      var rest := Split(s[1..]);
      assert s == [s[0]] + s[1..];
      assert rest == [rest[0]] + rest[1..];
      if s[0] == SEPARATOR {
        assert forall p | p in rest :: p in [""] + rest;
      } else {
        var first := [s[0]] + rest[0];
        assert Split(s) == [first] + rest[1..];
        assert first in Split(s);
        assert forall p | p in rest[1..] :: p in Split(s);
        if WILDCARD in s && s[0] != WILDCARD {
          var p :| p in rest && WILDCARD in p;
          if p == rest[0] { assert WILDCARD in first; } else { assert p in Split(s); }
        }
        if p :| p in Split(s) && WILDCARD in p {
          if p == first { assert WILDCARD == s[0] || WILDCARD in rest[0]; assert rest[0] in rest; }
        }
      }
    }
  }

  // ---------- coverage ----------

  /** Casbin's `keyMatch(key1, key2)`: only what precedes the first `*` of the pattern counts. */
  predicate KeyMatch(key1: string, key2: string) {
    var i := Index(key2, WILDCARD);
    if i < 0 then key1 == key2
    else if |key1| > i then key1[..i] == key2[..i]
    else key1 == key2[..i]
  }

  /** The object part of the matcher: `r.obj == p.obj || keyMatch(r.obj, p.obj)`. */
  predicate ObjectMatches(requested: string, policy: string) {
    requested == policy || KeyMatch(requested, policy)
  }

  /** Matching segment by segment: what precedes the final `*` agrees and at least one more segment follows. */
  predicate SegmentsCover(policy: seq<string>, target: seq<string>)
    requires |policy| >= 1
  {
    var n := |policy| - 1;
    if policy[n] == [WILDCARD] then |target| > n && target[..n] == policy[..n] else policy == target
  }

  /** The domain test and the enforcer's test agree on every pair of non-empty codes. */
  lemma CoversIsKeyMatch(policy: PermissionCode, target: PermissionCode)
    requires !policy.IsZero() && !target.IsZero()
    ensures policy.Covers(target) <==> ObjectMatches(target.value, policy.value)
  {
  }

  /** Everything before the final `*` of a wildcard code. */
  function WildcardPrefix(c: PermissionCode): string
    requires |Split(c.value)| >= 2
  {
    Join(Split(c.value)[..|Split(c.value)| - 1])
  }

  lemma SplitPrefix(s: string, last: string)
    requires |Split(s)| >= 2 && Split(s)[|Split(s)| - 1] == last
    ensures s == WildcardPrefix(PermissionCode(s)) + [SEPARATOR] + last
    ensures Split(s) == Split(WildcardPrefix(PermissionCode(s))) + [last]
  {
    var segs, prefix := Split(s), WildcardPrefix(PermissionCode(s));
    var n := |segs| - 1;
    assert segs == segs[..n] + [last];
    JoinSplit(s);
    JoinAppend(segs[..n], [last]);
    SplitAtSeparator(prefix, last);
    assert SEPARATOR !in last;
    SplitPlain(last);
    assert segs[..n] == (Split(prefix) + [last])[..n] == Split(prefix);
  }

  lemma {:induction false} SplitPlain(s: string)
    requires SEPARATOR !in s
    ensures Split(s) == [s]
  {
    if s != "" {
      assert forall c | c in s[1..] :: c in s;
      SplitPlain(s[1..]);
      assert s == [s[0]] + s[1..];
    }
  }

  lemma ConcreteHasNoWildcard(s: string)
    requires forall p | p in Split(s) :: IdentifierSegment(p)
    ensures WILDCARD !in s
  {
    WildcardBySegments(s);
    IdentifiersHaveNoWildcard(Split(s));
  }

  /** A code is either concrete or a prefix without wildcard, a separator and the one `*`. */
  lemma CodeShape(c: PermissionCode)
    requires Constructible(c) && !c.IsZero()
    ensures |Split(c.value)| >= 2
    ensures c.HasWildcard() <==> Split(c.value)[|Split(c.value)| - 1] == [WILDCARD]
    ensures c.HasWildcard() ==>
              var prefix := WildcardPrefix(c);
              && c.value == prefix + [SEPARATOR] + [WILDCARD]
              && WILDCARD !in prefix
              && Split(c.value) == Split(prefix) + [[WILDCARD]]
  {
    var segs := Split(c.value);
    var n := |segs| - 1;
    if segs[n] == [WILDCARD] {
      SplitPrefix(c.value, [WILDCARD]);
      var prefix := WildcardPrefix(c);
      assert Split(prefix) == segs[..n];
      ConcreteHasNoWildcard(prefix);
    } else {
      ConcreteHasNoWildcard(c.value);
    }
  }

  /** A string starts with `prefix:` exactly when its segments start with those of `prefix` and go on. */
  lemma PrefixBySegments(prefix: string, t: string)
    ensures prefix + [SEPARATOR] <= t <==> |Split(t)| > |Split(prefix)| && Split(prefix) <= Split(t)
  {
    var head, ps, ts := prefix + [SEPARATOR], Split(prefix), Split(t);
    JoinSplit(prefix);
    JoinSplit(t);
    if head <= t {
      var tail := t[|head|..];
      assert t == prefix + [SEPARATOR] + tail;
      SplitAtSeparator(prefix, tail);
    }
    if |ts| > |ps| && ps <= ts {
      var rest := ts[|ps|..];
      assert ts == ps + rest;
      JoinAppend(ps, rest);
      assert t == head + Join(rest);
    }
  }

  /** The prefix test on constructible codes is matching segment by segment. */
  lemma CoversIsSegmentwise(policy: PermissionCode, target: PermissionCode)
    requires Constructible(policy) && !policy.IsZero()
    requires Constructible(target) && !target.IsZero()
    ensures policy.Covers(target) <==> SegmentsCover(Split(policy.value), Split(target.value))
  {
    var p, t := policy.value, target.value;
    CodeShape(policy);
    if policy.HasWildcard() {
      var prefix := WildcardPrefix(policy);
      WildcardCoversByPrefix(p, prefix, t);
      PrefixBySegments(prefix, t);
      var n := |Split(prefix)|;
      assert Split(p)[..n] == Split(prefix);
      assert |Split(t)| > n ==> (Split(prefix) <= Split(t) <==> Split(t)[..n] == Split(prefix));
    } else {
      JoinSplit(p);
      JoinSplit(t);
    }
  }

  lemma WildcardCoversByPrefix(p: string, prefix: string, t: string)
    requires p == prefix + [SEPARATOR] + [WILDCARD] && WILDCARD !in prefix && t != ""
    ensures PermissionCode(p).Covers(PermissionCode(t)) <==> prefix + [SEPARATOR] <= t
  {
  }

  /** What precedes the `*`, separator included. */
  function Head(c: PermissionCode): string
    requires |Split(c.value)| >= 2
  {
    WildcardPrefix(c) + [SEPARATOR]
  }

  lemma CoversByHead(c: PermissionCode, t: PermissionCode)
    requires Constructible(c) && !c.IsZero() && !t.IsZero()
    ensures |Split(c.value)| >= 2
    ensures c.Covers(t) <==> if c.HasWildcard() then Head(c) <= t.value else c.value == t.value
    ensures c.HasWildcard() ==> c.value == Head(c) + [WILDCARD] && WILDCARD !in Head(c)
  {
    CodeShape(c);
    if c.HasWildcard() {
      WildcardCoversByPrefix(c.value, WildcardPrefix(c), t.value);
    }
  }

  lemma CoversReflexive(a: PermissionCode)
    requires Constructible(a) && !a.IsZero()
    ensures a.Covers(a)
  {
  }

  lemma CoversAntisymmetric(a: PermissionCode, b: PermissionCode)
    requires Constructible(a) && !a.IsZero() && Constructible(b) && !b.IsZero()
    requires a.Covers(b) && b.Covers(a)
    ensures a == b
  {
    CoversByHead(a, b);
    CoversByHead(b, a);
    if a.HasWildcard() && b.HasWildcard() {
      var x, y := Head(a), Head(b);
      PrefixWithoutWildcard(x, y);
      PrefixWithoutWildcard(y, x);
      assert x == y;
      assert a.value == b.value;
    } else {
      assert a.value == b.value;
    }
  }

  lemma CoversTransitive(a: PermissionCode, b: PermissionCode, c: PermissionCode)
    requires Constructible(a) && !a.IsZero() && Constructible(b) && !b.IsZero() && !c.IsZero()
    requires a.Covers(b) && b.Covers(c)
    ensures a.Covers(c)
  {
  }

  lemma PrefixWithoutWildcard(x: string, y: string)
    requires WILDCARD !in x
    ensures x <= y + [WILDCARD] <==> x <= y
  {
    assert |x| == |y| + 1 && x[|y|] == WILDCARD ==> WILDCARD in x;
  }

  /**
    Why a wildcard may only stand last: `prefix:*:rest` reads as if `rest` still counted, yet the
    enforcer's test would let it match everything below `prefix`. The constructor refuses it.
   */
  lemma InnerWildcardWouldWiden(prefix: string, rest: string, requested: string)
    requires WILDCARD !in prefix
    ensures var policy := prefix + [SEPARATOR] + ([WILDCARD] + [SEPARATOR] + rest);
            && !ValidCode(policy)
            && (KeyMatch(requested, policy) <==> prefix + [SEPARATOR] <= requested)
  {
    var tail := [WILDCARD] + [SEPARATOR] + rest;
    InnerWildcardRefused(prefix, tail, rest);
    IndexIs(prefix + [SEPARATOR] + tail, WILDCARD, |prefix| + 1);
    assert (prefix + [SEPARATOR] + tail)[..|prefix| + 1] == prefix + [SEPARATOR];
  }

  lemma InnerWildcardRefused(prefix: string, tail: string, rest: string)
    requires tail == [WILDCARD] + [SEPARATOR] + rest
    ensures !ValidCode(prefix + [SEPARATOR] + tail)
  {
    SplitAtSeparator(prefix, tail);
    SplitAtSeparator([WILDCARD], rest);
    SplitPlain([WILDCARD]);
    var segs, n := Split(prefix + [SEPARATOR] + tail), |Split(prefix)|;
    assert segs == Split(prefix) + (Split([WILDCARD]) + Split(rest));
    assert segs[n] == Split([WILDCARD])[0] && n < |segs| - 1;
    IdentifierHasNoWildcard(segs[n]);
  }
}
