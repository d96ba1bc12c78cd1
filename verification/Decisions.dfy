/**
  What the installed rules allow: the enforcer's matcher over one rule set, the permissions a set of
  roles resolves to, and their agreement with the menu selection.
 */
module Decisions {
  import opened PermissionCodes
  import opened RoleBindings
  import opened RoleGraph
  import opened PolicyHistory
  import opened PermissionTrees

  /** The model's matcher and effect: some `p` rule links the role and matches the object. */
  predicate Enforce(rules: set<Rule>, sub: string, obj: string) {
    exists r :: r in rules && r.Grant? && HasLink(Edges(rules), sub, r.role) && ObjectMatches(obj, r.code)
  }

  /** The codes granted to a role directly or through inheritance. */
  function ImplicitPermissions(rules: set<Rule>, sub: string): set<string> {
    set r | r in rules && r.Grant? && HasLink(Edges(rules), sub, r.role) :: r.code
  }

  /** Some of the roles inherits, over any number of steps, a grant of this code. */
  ghost predicate Holds(rules: set<Rule>, roles: seq<string>, code: string) {
    exists i, sub :: 0 <= i < |roles| && Grant(sub, code) in rules && Reaches(Edges(rules), roles[i], sub)
  }

  /** Some held code matches the requested one. */
  ghost predicate Allows(rules: set<Rule>, roles: seq<string>, obj: string) {
    exists code :: Holds(rules, roles, code) && ObjectMatches(obj, code)
  }

  lemma EnforceIsReachability(rules: set<Rule>, sub: string, obj: string)
    ensures Enforce(rules, sub, obj) <==> Allows(rules, [sub], obj)
  {
    if Enforce(rules, sub, obj) {
      var r :| r in rules && r.Grant? && HasLink(Edges(rules), sub, r.role) && ObjectMatches(obj, r.code);
      HasLinkIsReaches(Edges(rules), sub, r.role);
      assert r == Grant(r.role, r.code) && [sub][0] == sub;
      assert Holds(rules, [sub], r.code);
    }
    if Allows(rules, [sub], obj) {
      var code :| Holds(rules, [sub], code) && ObjectMatches(obj, code);
      var i, role :| 0 <= i < |[sub]| && Grant(role, code) in rules && Reaches(Edges(rules), [sub][i], role);
      HasLinkIsReaches(Edges(rules), sub, role);
      assert Grant(role, code).Grant?;
    }
  }

  lemma ImplicitIsHeld(rules: set<Rule>, sub: string, code: string)
    ensures code in ImplicitPermissions(rules, sub) <==> Holds(rules, [sub], code)
  {
    if code in ImplicitPermissions(rules, sub) {
      var r :| r in rules && r.Grant? && HasLink(Edges(rules), sub, r.role) && r.code == code;
      HasLinkIsReaches(Edges(rules), sub, r.role);
      assert Grant(r.role, code) in rules && [sub][0] == sub;
    }
    if Holds(rules, [sub], code) {
      var i, role :| 0 <= i < |[sub]| && Grant(role, code) in rules && Reaches(Edges(rules), [sub][i], role);
      HasLinkIsReaches(Edges(rules), sub, role);
      assert Grant(role, code).Grant?;
    }
  }

  lemma HoldsAppend(rules: set<Rule>, roles: seq<string>, role: string, code: string)
    ensures Holds(rules, roles + [role], code) <==> Holds(rules, roles, code) || Holds(rules, [role], code)
  {
    var all := roles + [role];
    if Holds(rules, all, code) {
      var i, sub :| 0 <= i < |all| && Grant(sub, code) in rules && Reaches(Edges(rules), all[i], sub);
      if i < |roles| { assert all[i] == roles[i]; } else { assert [role][0] == all[i]; }
    }
    if Holds(rules, roles, code) {
      var i, sub :| 0 <= i < |roles| && Grant(sub, code) in rules && Reaches(Edges(rules), roles[i], sub);
      assert all[i] == roles[i];
    }
    if Holds(rules, [role], code) {
      var i, sub :| 0 <= i < |[role]| && Grant(sub, code) in rules && Reaches(Edges(rules), [role][i], sub);
      assert all[|roles|] == role;
    }
  }

  lemma AllowsAppend(rules: set<Rule>, roles: seq<string>, role: string, obj: string)
    ensures Allows(rules, roles + [role], obj) <==> Allows(rules, roles, obj) || Allows(rules, [role], obj)
  {
    forall code {
      HoldsAppend(rules, roles, role, code);
    }
  }

  /** An empty role name holds nothing, so leaving such names out changes nothing. */
  lemma EmptyRoleHoldsNothing(rules: set<Rule>, code: string)
    requires WellFormedRules(rules)
    ensures !Holds(rules, [""], code)
  {
  }

  /** A granted code covers a node's code exactly when the enforcer would allow the roles that code. */
  lemma CoveredIffAllowed(rules: set<Rule>, roles: seq<string>, raw: seq<string>, target: PermissionCode)
    requires forall c :: c in raw <==> Holds(rules, roles, c)
    requires !target.IsZero()
    ensures GrantedCovers(Parsed(raw), target) <==> Allows(rules, roles, target.value)
  {
    var granted := Parsed(raw);
    if GrantedCovers(granted, target) {
      var i :| 0 <= i < |granted| && granted[i].Covers(target);
      assert granted[i] in granted;
      CoversIsKeyMatch(granted[i], target);
    }
    if Allows(rules, roles, target.value) {
      var code :| Holds(rules, roles, code) && ObjectMatches(target.value, code);
      var g := PermissionCode(code);
      assert !g.IsZero();
      assert g in granted;
      CoversIsKeyMatch(g, target);
      var i :| 0 <= i < |granted| && granted[i] == g;
    }
  }
}
