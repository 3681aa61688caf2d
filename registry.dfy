/**
 The role registry of the RBAC file system: roles are named sets of
 permission tokens, users hold an ordered list of role names, and a user's
 effective permissions are the union of the permissions of every role the
 user holds.
 */
module Registry {

  /** What `AssignRole` did: the role was appended, or it does not exist. */
  datatype AssignOutcome = Assigned | RoleNotFound

  /** Every role name held by any user is a key of `roles`, so looking it up never fails. */
  ghost predicate WellFormed(roles: map<string, set<string>>, users: map<string, seq<string>>)
  {
    forall u, i :: u in users && 0 <= i < |users[u]| ==> users[u][i] in roles
  }

  /** Every name in `rs` is a defined role. */
  ghost predicate AllDefined(roles: map<string, set<string>>, rs: seq<string>)
  {
    forall i :: 0 <= i < |rs| ==> rs[i] in roles
  }

  /** The role list of `u`, empty for a user who was never assigned a role. */
  function AssignedRoles(users: map<string, seq<string>>, u: string): seq<string>
  {
    if u in users then users[u] else []
  }

  /** The union of the permissions of the roles in `rs`. */
  ghost function RoleUnion(roles: map<string, set<string>>, rs: seq<string>): set<string>
    requires AllDefined(roles, rs)
  {
    if rs == [] then {} else roles[rs[0]] + RoleUnion(roles, rs[1..])
  }

  /** The effective permissions of `u`: empty for an unknown user. */
  ghost function Effective(roles: map<string, set<string>>, users: map<string, seq<string>>, u: string): set<string>
    requires WellFormed(roles, users)
  {
    if u in users then RoleUnion(roles, users[u]) else {}
  }

  /** A token is in the union exactly when some role of the list grants it. */
  lemma {:induction false} RoleUnionMembership(roles: map<string, set<string>>, rs: seq<string>, p: string)
    requires AllDefined(roles, rs)
    ensures p in RoleUnion(roles, rs) <==> exists i :: 0 <= i < |rs| && p in roles[rs[i]]
  {
    if rs != [] {
      RoleUnionMembership(roles, rs[1..], p);
      if p in RoleUnion(roles, rs[1..]) {
        var i :| 0 <= i < |rs[1..]| && p in roles[rs[1..][i]];
        assert p in roles[rs[i + 1]];
      }
      if exists i :: 0 <= i < |rs| && p in roles[rs[i]] {
        var i :| 0 <= i < |rs| && p in roles[rs[i]];
        if i > 0 {
          assert p in roles[rs[1..][i - 1]];
        }
      }
    }
  }

  /** Order and repetitions of the role list do not matter: only which roles occur. */
  lemma RoleUnionOfSameRoles(roles: map<string, set<string>>, rs: seq<string>, qs: seq<string>)
    requires AllDefined(roles, rs) && AllDefined(roles, qs)
    requires forall r :: r in rs <==> r in qs
    ensures RoleUnion(roles, rs) == RoleUnion(roles, qs)
  {
    forall p | p in RoleUnion(roles, rs) ensures p in RoleUnion(roles, qs) {
      RoleUnionMembership(roles, rs, p);
      var i :| 0 <= i < |rs| && p in roles[rs[i]];
      assert rs[i] in qs;
      var j :| 0 <= j < |qs| && qs[j] == rs[i];
      RoleUnionMembership(roles, qs, p);
    }
    forall p | p in RoleUnion(roles, qs) ensures p in RoleUnion(roles, rs) {
      RoleUnionMembership(roles, qs, p);
      var j :| 0 <= j < |qs| && p in roles[qs[j]];
      assert qs[j] in rs;
      var i :| 0 <= i < |rs| && rs[i] == qs[j];
      RoleUnionMembership(roles, rs, p);
    }
  }

  /** Appending a role adds exactly that role's permissions to the union. */
  lemma {:induction false} RoleUnionAppend(roles: map<string, set<string>>, rs: seq<string>, r: string)
    requires AllDefined(roles, rs) && r in roles
    ensures AllDefined(roles, rs + [r])
    ensures RoleUnion(roles, rs + [r]) == RoleUnion(roles, rs) + roles[r]
  {
    if rs != [] {
      assert (rs + [r])[1..] == rs[1..] + [r];
      RoleUnionAppend(roles, rs[1..], r);
    }
  }

  /** The roles of two lists together grant the union of what each list grants. */
  lemma {:induction false} RoleUnionConcat(roles: map<string, set<string>>, rs: seq<string>, qs: seq<string>)
    requires AllDefined(roles, rs) && AllDefined(roles, qs)
    ensures AllDefined(roles, rs + qs)
    ensures RoleUnion(roles, rs + qs) == RoleUnion(roles, rs) + RoleUnion(roles, qs)
  {
    if rs != [] {
      assert (rs + qs)[1..] == rs[1..] + qs;
      RoleUnionConcat(roles, rs[1..], qs);
    } else {
      assert rs + qs == qs;
    }
  }

  /** A user holding only role `r` (any number of times) has exactly the permissions of `r`. */
  lemma {:induction false} RoleUnionOfOneRole(roles: map<string, set<string>>, rs: seq<string>, r: string)
    requires r in roles && |rs| > 0
    requires forall i :: 0 <= i < |rs| ==> rs[i] == r
    ensures AllDefined(roles, rs)
    ensures RoleUnion(roles, rs) == roles[r]
  {
    if |rs| > 1 {
      RoleUnionOfOneRole(roles, rs[1..], r);
    }
  }

  /**
   Redefining role `name` is seen by the very next resolution: a list holding
   `name` grants exactly the new permissions of `name` plus those of its other
   roles (tokens dropped from `name` are revoked), and a list not holding
   `name` is unaffected.
   */
  lemma {:induction false} RoleUnionAfterRedefine(roles: map<string, set<string>>, rs: seq<string>, name: string, perms: set<string>)
    requires AllDefined(roles, rs)
    ensures AllDefined(roles[name := perms], rs)
    ensures forall p {:trigger p in RoleUnion(roles[name := perms], rs)} :: p in RoleUnion(roles[name := perms], rs) <==>
      (name in rs && p in perms) || exists i :: 0 <= i < |rs| && rs[i] != name && p in roles[rs[i]]
    ensures name in rs ==> perms <= RoleUnion(roles[name := perms], rs)
    ensures name !in rs ==> RoleUnion(roles[name := perms], rs) == RoleUnion(roles, rs)
  {
    var roles' := roles[name := perms];
    forall p ensures p in RoleUnion(roles', rs) <==>
      (name in rs && p in perms) || exists i :: 0 <= i < |rs| && rs[i] != name && p in roles[rs[i]]
    {
      RoleUnionMembership(roles', rs, p);
      if name in rs && p in perms {
        var k :| 0 <= k < |rs| && rs[k] == name;
        assert p in roles'[rs[k]];
      }
      if exists i :: 0 <= i < |rs| && rs[i] != name && p in roles[rs[i]] {
        var k :| 0 <= k < |rs| && rs[k] != name && p in roles[rs[k]];
        assert p in roles'[rs[k]];
      }
      if p in RoleUnion(roles', rs) {
        var k :| 0 <= k < |rs| && p in roles'[rs[k]];
        assert rs[k] in rs;
      }
    }
    if name !in rs {
      forall p ensures p in RoleUnion(roles', rs) <==> p in RoleUnion(roles, rs) {
        RoleUnionMembership(roles, rs, p);
        if p in RoleUnion(roles, rs) {
          var k :| 0 <= k < |rs| && p in roles[rs[k]];
          assert rs[k] != name;
        }
      }
    }
  }

  /**
   Assigning an existing role `r` to `u` keeps the registry well formed, adds
   exactly the permissions of `r` to `u`, and changes no other user's permissions.
   */
  lemma AssignGrantsRole(roles: map<string, set<string>>, users: map<string, seq<string>>, u: string, r: string)
    requires WellFormed(roles, users) && r in roles
    ensures WellFormed(roles, users[u := AssignedRoles(users, u) + [r]])
    ensures Effective(roles, users[u := AssignedRoles(users, u) + [r]], u) == Effective(roles, users, u) + roles[r]
    ensures forall v :: v != u ==> Effective(roles, users[u := AssignedRoles(users, u) + [r]], v) == Effective(roles, users, v)
  {
    var users' := users[u := AssignedRoles(users, u) + [r]];
    RoleUnionAppend(roles, AssignedRoles(users, u), r);
    assert WellFormed(roles, users') by {
      forall v, i | v in users' && 0 <= i < |users'[v]| ensures users'[v][i] in roles {
        if v == u && i == |users'[v]| - 1 {
          assert users'[v][i] == r;
        } else if v == u {
          assert users'[v][i] == AssignedRoles(users, u)[i];
        }
      }
    }
  }

  /**
   Redefining role `name` keeps the registry well formed and takes effect for
   every user at once: a holder of `name` has exactly its new permissions plus
   those of the holder's other roles, everyone else keeps theirs.
   */
  lemma RedefineRoleEffect(roles: map<string, set<string>>, users: map<string, seq<string>>, name: string, perms: set<string>, u: string)
    requires WellFormed(roles, users)
    ensures WellFormed(roles[name := perms], users)
    ensures forall p {:trigger p in Effective(roles[name := perms], users, u)} :: p in Effective(roles[name := perms], users, u) <==>
      (name in AssignedRoles(users, u) && p in perms) ||
      exists i :: 0 <= i < |AssignedRoles(users, u)| && AssignedRoles(users, u)[i] != name && p in roles[AssignedRoles(users, u)[i]]
    ensures name in AssignedRoles(users, u) ==> perms <= Effective(roles[name := perms], users, u)
    ensures name !in AssignedRoles(users, u) ==> Effective(roles[name := perms], users, u) == Effective(roles, users, u)
  {
    var held := AssignedRoles(users, u);
    assert WellFormed(roles[name := perms], users);
    RoleUnionAfterRedefine(roles, held, name, perms);
    assert Effective(roles[name := perms], users, u) == RoleUnion(roles[name := perms], held);
    assert Effective(roles, users, u) == RoleUnion(roles, held);
    forall p ensures p in Effective(roles[name := perms], users, u) <==>
      (name in held && p in perms) || exists i :: 0 <= i < |held| && held[i] != name && p in roles[held[i]]
    {
      assert p in Effective(roles[name := perms], users, u) <==> p in RoleUnion(roles[name := perms], held);
    }
  }

  /** The registry: `roles` maps a role to its tokens, `users` a user to the roles assigned, in order. */
  class Rbac {
    var roles: map<string, set<string>>
    var users: map<string, seq<string>>

    ghost predicate Valid()
      reads this
    {
      WellFormed(roles, users)
    }

    /** The permissions `u` currently holds. */
    ghost function Permissions(u: string): set<string>
      reads this
      requires Valid()
    {
      Effective(roles, users, u)
    }

    constructor ()
      ensures Valid()
      ensures roles == map[] && users == map[]
    {
      roles := map[];
      users := map[];
    }

    /** Defines role `name`, replacing any previous definition without merging. */
    method AddRole(name: string, perms: set<string>)
      requires Valid()
      modifies this
      ensures Valid()
      ensures roles == old(roles)[name := perms]
      ensures users == old(users)
    {
      roles := roles[name := perms];
    }

    /** Appends `role` to the role list of `user` (created empty if new), only if the role exists. */
    method AssignRole(user: string, role: string) returns (o: AssignOutcome)
      requires Valid()
      modifies this
      ensures Valid()
      ensures roles == old(roles)
      ensures o == Assigned <==> role in old(roles)
      ensures o == RoleNotFound ==> users == old(users)
      ensures o == Assigned ==> users == old(users)[user := AssignedRoles(old(users), user) + [role]]
    {
      if role in roles {
        AssignGrantsRole(roles, users, user, role);
        if user !in users {
          users := users[user := []];
        }
        users := users[user := users[user] + [role]];
        o := Assigned;
      } else {
        o := RoleNotFound;
      }
    }

    /** Collects the permissions of every role of `user`; an unknown user has none. */
    method UserPermissions(user: string) returns (perms: set<string>)
      requires Valid()
      ensures perms == Permissions(user)
      ensures user !in users ==> perms == {}
      ensures forall i :: 0 <= i < |AssignedRoles(users, user)| ==> roles[AssignedRoles(users, user)[i]] <= perms
    {
      if user !in users {
        return {};
      }
      var held := users[user];
      perms := {};
      for i := 0 to |held|
        invariant AllDefined(roles, held[..i])
        invariant perms == RoleUnion(roles, held[..i])
      {
        assert held[..i + 1] == held[..i] + [held[i]];
        RoleUnionAppend(roles, held[..i], held[i]);
        perms := perms + roles[held[i]];
      }
      assert held[..|held|] == held;
      forall i | 0 <= i < |held| ensures roles[held[i]] <= perms {
        forall p | p in roles[held[i]] ensures p in perms {
          RoleUnionMembership(roles, held, p);
        }
      }
    }

    /** Whether `user` holds `permission`; false for an unknown user. */
    method HasPermission(user: string, permission: string) returns (b: bool)
      requires Valid()
      ensures b <==> permission in Permissions(user)
      ensures b <==> exists i :: 0 <= i < |AssignedRoles(users, user)| && permission in roles[AssignedRoles(users, user)[i]]
    {
      var perms := UserPermissions(user);
      b := permission in perms;
      RoleUnionMembership(roles, AssignedRoles(users, user), permission);
    }
  }
}
