/** Menus for a principal's roles: the join of the enforcer's resolved codes and the permission tree. */
module Menus {
  import opened Wrappers
  import opened AccessErrors
  import opened PermissionCodes
  import opened RoleBindings
  import opened PolicyHistory
  import opened PolicyLoader
  import opened PermissionTrees
  import opened Decisions
  import ReloadProtocol

  /** Every non-empty name is a role key. */
  predicate NamesAreRoles(names: seq<string>) {
    forall i | 0 <= i < |names| :: names[i] == "" || ValidRole(names[i])
  }

  function NonEmpty(names: seq<string>): seq<string> {
    if names == [] then []
    else
      var n := |names| - 1;
      NonEmpty(names[..n]) + (if names[n] == "" then [] else [names[n]])
  }

  method ToRoles(names: seq<string>) returns (r: Result<seq<string>, AccessError>)
    ensures r == if NamesAreRoles(names) then Success(NonEmpty(names)) else Failure(EmptyRole)
  {
    var out: seq<string> := [];
    for i := 0 to |names|
      invariant NamesAreRoles(names[..i]) && out == NonEmpty(names[..i])
    {
      assert names[..i + 1][..i] == names[..i];
      if names[i] == "" {
        continue;
      }
      var role := NewRole(names[i]);
      if role.Failure? {
        return Failure(role.error);
      }
      out := out + [role.value];
    }
    assert names[..|names|] == names;
    r := Success(out);
  }

  lemma {:induction false} NonEmptyHoldsTheSame(rules: set<Rule>, names: seq<string>, code: string)
    requires WellFormedRules(rules)
    ensures Holds(rules, NonEmpty(names), code) <==> Holds(rules, names, code)
    decreases |names|
  {
    if names != [] {
      var n := |names| - 1;
      assert names == names[..n] + [names[n]];
      NonEmptyHoldsTheSame(rules, names[..n], code);
      HoldsAppend(rules, names[..n], names[n], code);
      if names[n] == "" {
        EmptyRoleHoldsNothing(rules, code);
        assert NonEmpty(names) == NonEmpty(names[..n]);
      } else {
        HoldsAppend(rules, NonEmpty(names[..n]), names[n], code);
      }
    }
  }

  /** The enabled nodes whose code the enforcer would allow to these roles. */
  ghost function AllowedNodes(perms: seq<Permission>, rules: set<Rule>, names: seq<string>): set<int> {
    set p | p in perms && p.code.value != "" && p.status == 1 && Allows(rules, names, p.code.value) :: p.id
  }

  /**
    On one rule set the direct hits of the menu selection are exactly the enabled nodes that request
    authorization would allow to the same names, through inheritance, repetitions, blanks and wildcards.
   */
  lemma HitsAreAllowedNodes(perms: seq<Permission>, rules: set<Rule>, names: seq<string>, raw: seq<string>)
    requires WellFormedRules(rules)
    requires forall c :: c in raw <==> Holds(rules, NonEmpty(names), c)
    ensures Hits(perms, Parsed(raw)) == AllowedNodes(perms, rules, names)
  {
    forall c {
      NonEmptyHoldsTheSame(rules, names, c);
    }
    forall p | p in perms && !p.code.IsZero()
      ensures GrantedCovers(Parsed(raw), p.code) <==> Allows(rules, names, p.code.value)
    {
      CoveredIffAllowed(rules, names, raw, p.code);
    }
  }

  /**
    In every interleaving of writes and reloads, on whatever rules the instance serves at a moment, the
    menus a principal sees directly are the ones whose requests the same instance would allow.
   */
  lemma MenusAgreeInEveryRun(base: PolicyDb, known: set<string>, states: seq<ReloadProtocol.State>,
                             steps: seq<ReloadProtocol.Step>, i: nat,
                             perms: seq<Permission>, names: seq<string>, raw: seq<string>)
    requires ReloadProtocol.Trace(base, known, states, steps) && i < |states| && ReloadProtocol.LockFree(states[i])
    requires WellFormedRules(base.rules) && ReloadProtocol.CommitsFromRepository(steps)
    requires forall c :: c in raw <==> Holds(states[i].e, NonEmpty(names), c)
    ensures AllCodes(raw) && Hits(perms, Parsed(raw)) == AllowedNodes(perms, states[i].e, names)
  {
    ReloadProtocol.CacheIsWellFormed(base, known, states, steps, i);
    HeldCodesAreStored(states[i].e, NonEmpty(names));
    HitsAreAllowedNodes(perms, states[i].e, names, raw);
  }

  /** Every allowed directory or menu is among the menus, and no button is. */
  lemma AllowedAreListed(perms: seq<Permission>, rules: set<Rule>, names: seq<string>, menus: seq<Permission>)
    requires menus == SelectMenus(perms, UpFrom(IndexById(perms), AllowedNodes(perms, rules, names)))
    ensures forall p | p in perms && p.typ in {1, 2} && p.status == 1 && p.code.value != ""
                       && Allows(rules, names, p.code.value) :: p in menus
    ensures forall p | p in menus :: p in perms && p.typ != 3
  {
    var hits := AllowedNodes(perms, rules, names);
    var ids := UpFrom(IndexById(perms), hits);
    IndexFacts(perms);
    UpFromClosed(IndexById(perms), hits);
    forall p ensures p in menus <==> p in perms && p.id in ids && p.typ != 3 {
      SelectMenusMembers(perms, ids, p);
    }
    assert forall p | p in perms && p.status == 1 && p.code.value != "" && Allows(rules, names, p.code.value) ::
        p.id in hits;
  }

  /** Every code the roles hold is well-formed; true of all reachable rules. */
  ghost predicate HeldCodesValid(rules: set<Rule>, roles: seq<string>) {
    forall c | Holds(rules, roles, c) :: ValidCode(c)
  }

  lemma HeldCodesAreStored(rules: set<Rule>, roles: seq<string>)
    requires WellFormedRules(rules)
    ensures HeldCodesValid(rules, roles)
  {
  }

  /**
    The menus and codes of a principal, over the installed rules and a listing of the rows. A name that
    is no role key, a stored code that is no code or a row that is no node fails the whole call.
   */
  method GetMenusForRoles(enforcer: Enforcer, perms: seq<Permission>, names: seq<string>)
    returns (r: Result<(seq<Permission>, seq<PermissionCode>), AccessError>)
    ensures !NamesAreRoles(names) ==> r == Failure(EmptyRole)
    ensures NamesAreRoles(names) && !HeldCodesValid(enforcer.e.rules, NonEmpty(names)) ==>
              r == Failure(InvalidPermissionCode)
    ensures NamesAreRoles(names) && HeldCodesValid(enforcer.e.rules, NonEmpty(names)) ==>
              match FirstViolation(perms)
              case Some(e) => r == Failure(e)
              case None =>
                && r.Success?
                && r.value.0 == SelectMenus(perms, UpFrom(IndexById(perms), Hits(perms, r.value.1)))
                && (forall c :: c in r.value.1 <==> !c.IsZero() && Holds(enforcer.e.rules, NonEmpty(names), c.value))
    ensures NamesAreRoles(names) && FirstViolation(perms).None? &&
            enforcer.Current() && enforcer.adapter.source.repositoryOnly ==>
              && r.Success?
              && r.value.0 == SelectMenus(perms, UpFrom(IndexById(perms), AllowedNodes(perms, enforcer.e.rules, names)))
              && (forall p | p in perms && p.typ in {1, 2} && p.status == 1 && p.code.value != ""
                             && Allows(enforcer.e.rules, names, p.code.value) :: p in r.value.0)
              && (forall p | p in r.value.0 :: p in perms && p.typ != 3)
  {
    ghost var rules := enforcer.e.rules;
    var roles := ToRoles(names);
    if roles.Failure? {
      return Failure(roles.error);
    }
    ghost var clean := enforcer.Current() && enforcer.adapter.source.repositoryOnly;
    if clean {
      enforcer.ServesWellFormed();
      HeldCodesAreStored(rules, roles.value);
    }
    var raw := enforcer.PermissionsOf(roles.value);
    var codes := ParsePermissionCodes(raw);
    if codes.Failure? {
      return Failure(codes.error);
    }
    var listed := RehydrateRows(perms);
    if listed.Failure? {
      return Failure(listed.error);
    }
    var tree := NewPermissionTree(listed.value);
    var menus := VisibleMenus(tree, codes.value);
    if clean {
      HitsAreAllowedNodes(perms, rules, names, raw);
      AllowedAreListed(perms, rules, names, menus);
    }
    r := Success((menus, codes.value));
  }
}
