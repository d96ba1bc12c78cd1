/** Role keys, the direct grants of one role, and inheritance pairs, as validated before they are stored. */
module RoleBindings {
  import opened Wrappers
  import opened AccessErrors
  import opened PermissionCodes
  import opened Text

  const MAX_ROLE_LEN := 64

  /** A role key: at most 64 bytes, a letter first, then letters, digits, `-` and `_`. */
  predicate ValidRole(s: string) {
    && 0 < |s| <= MAX_ROLE_LEN
    && IsLetter(s[0])
    && forall i | 0 <= i < |s| :: RoleByte(s[i])
  }

  predicate RoleByte(c: char) {
    IsLetter(c) || IsDigit(c) || c == '-' || c == '_'
  }

  lemma RoleKeysOnBytes(s: string)
    ensures ValidRole(s) <==> && 0 < |s| <= 64 && AsciiLetter(s[0])
                              && forall c | c in s :: AsciiLetter(c) || AsciiDigit(c) || c in "-_"
  {
    assert forall c: char :: RoleByte(c) <==> AsciiLetter(c) || AsciiDigit(c) || c in "-_";
    assert (forall i | 0 <= i < |s| :: RoleByte(s[i])) <==> (forall c | c in s :: RoleByte(c));
  }

  /** The scan shared by `NewRole` and the account role assignment. */
  method CheckRole(s: string) returns (ok: bool)
    ensures ok <==> ValidRole(s)
    ensures ok <==> && 0 < |s| <= 64 && AsciiLetter(s[0])
                    && forall c | c in s :: AsciiLetter(c) || AsciiDigit(c) || c in "-_"
  {
    RoleKeysOnBytes(s);
    if |s| == 0 || |s| > MAX_ROLE_LEN {
      return false;
    }
    for i := 0 to |s|
      invariant i > 0 ==> IsLetter(s[0])
      invariant forall j | 0 <= j < i :: RoleByte(s[j])
    {
      var letter, digit := IsLetter(s[i]), IsDigit(s[i]);
      if !letter && (i == 0 || (!digit && s[i] != '-' && s[i] != '_')) {
        assert i == 0 ==> !IsLetter(s[0]);
        assert i > 0 ==> !RoleByte(s[i]);
        return false;
      }
    }
    ok := true;
  }

  method NewRole(s: string) returns (r: Result<string, AccessError>)
    ensures r == if ValidRole(s) then Success(s) else Failure(EmptyRole)
  {
    var ok := CheckRole(s);
    r := if ok then Success(s) else Failure(EmptyRole);
  }

  /** The non-empty strings, in order, as codes. */
  function Parsed(ss: seq<string>): (cs: seq<PermissionCode>)
    ensures forall c :: c in cs <==> !c.IsZero() && c.value in ss
  {
    if ss == [] then []
    else
      var n := |ss| - 1;
      assert ss == ss[..n] + [ss[n]];
      if ss[n] == "" then Parsed(ss[..n]) else Parsed(ss[..n]) + [PermissionCode(ss[n])]
  }

  predicate AllCodes(ss: seq<string>) {
    forall s | s in ss :: ValidCode(s)
  }

  method ParsePermissionCodes(ss: seq<string>) returns (r: Result<seq<PermissionCode>, AccessError>)
    ensures r == if AllCodes(ss) then Success(Parsed(ss)) else Failure(InvalidPermissionCode)
  {
    var out: seq<PermissionCode> := [];
    for i := 0 to |ss|
      invariant AllCodes(ss[..i])
      invariant out == Parsed(ss[..i])
    {
      var c := NewPermissionCode(ss[i]);
      assert ss[..i + 1][..i] == ss[..i];
      if c.Failure? {
        assert ss[i] in ss;
        return Failure(c.error);
      }
      if c.value.IsZero() {
        continue;
      }
      out := out + [c.value];
    }
    assert ss[..|ss|] == ss;
    r := Success(out);
  }

  datatype RoleBinding = RoleBinding(role: string, codes: seq<PermissionCode>) {

    function CodeStrings(): seq<string> {
      seq(|codes|, i requires 0 <= i < |codes| => codes[i].value)
    }

    predicate Grants(target: PermissionCode) {
      exists i :: 0 <= i < |codes| && codes[i].Covers(target)
    }
  }

  function Values(codes: seq<PermissionCode>): set<string> {
    set c | c in codes && !c.IsZero() :: c.value
  }

  /** Drops empty codes and repetitions and sorts the rest. */
  method NewRoleBinding(role: string, codes: seq<PermissionCode>) returns (r: Result<RoleBinding, AccessError>)
    ensures role == "" ==> r == Failure(EmptyRole)
    ensures role != "" ==> r.Success? && r.value.role == role && r.value.CodeStrings() == Listing(Values(codes))
  {
    if role == "" {
      return Failure(EmptyRole);
    }
    var seen: set<string> := {};
    var deduped: seq<string> := [];
    for i := 0 to |codes|
      invariant seen == Values(codes[..i]) == Elements(deduped)
      invariant Distinct(deduped)
    {
      assert codes[..i + 1] == codes[..i] + [codes[i]];
      if codes[i].IsZero() {
        assert Values(codes[..i + 1]) == Values(codes[..i]);
        continue;
      }
      assert Values(codes[..i + 1]) == Values(codes[..i]) + {codes[i].value};
      if codes[i].value in seen {
        continue;
      }
      seen := seen + {codes[i].value};
      deduped := deduped + [codes[i].value];
    }
    assert codes[..|codes|] == codes;
    SortIsListing(deduped);
    var sorted := Sort(deduped);
    r := Success(RoleBinding(role, seq(|sorted|, i requires 0 <= i < |sorted| => PermissionCode(sorted[i]))));
    assert r.value.CodeStrings() == sorted;
  }

  /** Dropping repetitions and sorting never changes what a binding grants. */
  lemma BindingGrantsAsListed(b: RoleBinding, codes: seq<PermissionCode>, target: PermissionCode)
    requires b.CodeStrings() == Listing(Values(codes))
    ensures b.Grants(target) <==> exists c :: c in codes && c.Covers(target)
  {
    var strings := b.CodeStrings();
    if b.Grants(target) {
      var i :| 0 <= i < |b.codes| && b.codes[i].Covers(target);
      assert strings[i] in Listing(Values(codes));
      var c :| c in codes && !c.IsZero() && c.value == strings[i];
      assert c == b.codes[i];
    }
    if c :| c in codes && c.Covers(target) {
      assert c.value in Values(codes);
      var i :| 0 <= i < |strings| && strings[i] == c.value;
      assert b.codes[i] == c;
    }
  }

  /** Every code without wildcard must be in the catalogue; wildcard policies are not looked up. */
  method EnsureCodesKnown(b: RoleBinding, known: set<string>) returns (err: Option<AccessError>)
    ensures err == if forall c | c in b.codes :: c.HasWildcard() || c.value in known
                   then None else Some(UnknownPermissionCode)
  {
    for i := 0 to |b.codes|
      invariant forall c | c in b.codes[..i] :: c.HasWildcard() || c.value in known
    {
      assert b.codes[..i + 1] == b.codes[..i] + [b.codes[i]];
      if b.codes[i].HasWildcard() {
        continue;
      }
      if b.codes[i].value !in known {
        assert b.codes[i] in b.codes;
        return Some(UnknownPermissionCode);
      }
    }
    err := None;
  }

  datatype RoleInheritance = RoleInheritance(child: string, parent: string)

  function NewRoleInheritance(child: string, parent: string): Result<RoleInheritance, AccessError> {
    if child == "" || parent == "" then Failure(EmptyRole)
    else if child == parent then Failure(SelfInheritance)
    else Success(RoleInheritance(child, parent))
  }

  const MAX_ACTOR_LEN := 128

  predicate ValidActor(actor: string) {
    !Blank(actor) && |actor| <= MAX_ACTOR_LEN
  }

  /** A policy change must name who makes it. */
  method ValidateActor(actor: string) returns (err: Option<AccessError>)
    ensures err.None? <==> |actor| <= 128 &&
                           !exists parts: seq<string> :: AllWhite(parts) && Concat(parts) == actor
    ensures err.None? <==> ValidActor(actor)
    ensures err.Some? ==> err.value == InvalidPolicyActor
  {
    BlankIsAllWhite(actor);
    if Blank(actor) || |actor| > MAX_ACTOR_LEN {
      return Some(InvalidPolicyActor);
    }
    err := None;
  }
}
