/**
 The policy store (internal/rbac/policy.go, manager.go): an immutable snapshot behind a
 reference, replaced by every mutation. A role is a reference, compared by identity.
 */
module Policy {
  import opened Bytes
  import opened Bitset
  import opened Rbac

  datatype Ref = Ref(id: nat, role: Role)

  /** An empty password hash marks a nopass user. */
  datatype User = User(role: Text, hash: seq<byte>)

  datatype Policy = Policy(roles: map<Text, Ref>, users: map<Text, User>, fallback: Option<Ref>)
  {
    /** RoleFor: the assigned role, or the fallback when there is no such user or no such role. */
    function RoleFor(user: Text): Option<Ref> {
      if user in users && users[user].role in roles then Some(roles[users[user].role]) else fallback
    }

    predicate Admin(user: Text) {
      user in users && RoleFor(user).Some? && Has(RoleFor(user).value.role.permissions, ACL)
    }

    ghost predicate HasAdmin() { exists u :: u in users && Admin(u) }

    /** The fallback role is none, or one of the current roles. */
    ghost predicate FallbackOk() {
      fallback.Some? ==> exists n :: n in roles && roles[n] == fallback.value
    }

    predicate NoPassDefault() { B("default") in users && users[B("default")].hash == [] }

    /** hasOtherAdmin: a search over the user map in whatever order it is walked. */
    method HasOtherAdmin(user: Text) returns (found: bool)
      ensures found <==> exists u :: u in users && u != user && Admin(u)
    {
      hide Admin;
      var left := users.Keys;
      while left != {}
        invariant left <= users.Keys
        invariant forall u :: u in users && u !in left && u != user ==> !Admin(u)
      {
        var name :| name in left;
        left := left - {name};
        if name == user { continue; }
        if Admin(name) { return true; }
      }
      return false;
    }
  }

  const EMPTY: Policy := Policy(map[], map[], None)

  function Current(p: Option<Policy>): Policy { if p.Some? then p.value else EMPTY }

  // ----- The mutations on snapshots -----

  datatype Change =
    | CreateRole(name: Text, role: Option<Role>)
    | SetUser(user: Text, roleName: Text, hash: seq<byte>)
    | DelUser(user: Text)
    | DeleteRole(name: Text)
    | Reload(policy: Policy)

  /** Whether the mutation is refused; CreateRole carries the parsed role, none for bad rules. */
  ghost predicate Refused(p: Option<Policy>, c: Change) {
    match c
    case CreateRole(name, role) => role.None? || name in Current(p).roles
    case SetUser(_, roleName, _) => roleName !in Current(p).roles
    case DelUser(user) =>
      p.Some? && p.value.Admin(user) && forall u :: u in p.value.users && u != user ==> !p.value.Admin(u)
    case DeleteRole(name) => name !in Current(p).roles
    case Reload(_) => false
  }

  ghost function Apply(p: Option<Policy>, c: Change, id: nat): Option<Policy> {
    if Refused(p, c) then p
    else
      var cur := Current(p);
      match c
      case CreateRole(name, role) => Some(cur.(roles := cur.roles[name := Ref(id, role.value)]))
      case SetUser(user, roleName, hash) => Some(cur.(users := cur.users[user := User(roleName, hash)]))
      case DelUser(user) => if p.None? || user !in cur.users then p else Some(cur.(users := cur.users - {user}))
      case DeleteRole(name) => Some(Without(cur, name))
      case Reload(policy) => Some(policy)
  }

  function Without(p: Policy, name: Text): Policy
    requires name in p.roles
  {
    Policy(p.roles - {name}, p.users, if p.fallback == Some(p.roles[name]) then None else p.fallback)
  }

  class Store {
    var active: Option<Policy>
    var nextId: nat

    constructor (policy: Option<Policy>, nextId: nat)
      ensures active == policy && this.nextId == nextId
    {
      active, this.nextId := policy, nextId;
    }

    /** CreateRole parses first, so bad rules are refused whatever the policy holds. */
    method CreateRole(name: Text, rules: seq<Text>) returns (ok: bool, ghost role: Option<Role>)
      modifies this
      ensures role.Some? <==> rules != [] && forall i :: 0 <= i < |rules| ==> WellFormed(rules[i])
      ensures role.Some? ==> role.value.name == name && role.value.namespaces == Prefixes(rules)
                             && forall id: u16 :: Has(role.value.permissions, id) <==> Holds(rules, id)
      ensures active == Apply(old(active), Change.CreateRole(name, role), old(nextId))
      ensures ok <==> !Refused(old(active), Change.CreateRole(name, role))
      ensures nextId == old(nextId) + 1
    {
      hide WellFormed, Prefixes, Holds, Has;
      var parsed := ParseRole(name, rules);
      role := parsed;
      var id := nextId;
      nextId := nextId + 1;
      if parsed.None? { return false, role; }
      var p := EMPTY;
      if active.Some? {
        if name in active.value.roles { return false, role; }
        p := active.value;
      }
      active := Some(p.(roles := p.roles[name := Ref(id, parsed.value)]));
      ok := true;
    }

    method SetUser(user: Text, roleName: Text, hash: seq<byte>) returns (ok: bool)
      modifies this`active
      ensures active == Apply(old(active), Change.SetUser(user, roleName, hash), 0)
      ensures ok <==> !Refused(old(active), Change.SetUser(user, roleName, hash))
    {
      var p := EMPTY;
      if active.Some? { p := active.value; }
      if roleName !in p.roles { return false; }
      active := Some(p.(users := p.users[user := User(roleName, hash)]));
      ok := true;
    }

    method DelUser(user: Text) returns (ok: bool)
      modifies this`active
      ensures active == Apply(old(active), Change.DelUser(user), 0)
      ensures ok <==> !Refused(old(active), Change.DelUser(user))
    {
      hide Has;
      if active.None? { return true; }
      var p := active.value;
      if user !in p.users { return true; }
      if p.RoleFor(user).Some? && Has(p.RoleFor(user).value.role.permissions, ACL) {
        var other := p.HasOtherAdmin(user);
        if !other { return false; }
      }
      active := Some(p.(users := p.users - {user}));
      ok := true;
    }

    method DeleteRole(name: Text) returns (ok: bool)
      modifies this`active
      ensures active == Apply(old(active), Change.DeleteRole(name), 0)
      ensures ok <==> !Refused(old(active), Change.DeleteRole(name))
    {
      if active.None? { return false; }
      var p := active.value;
      if name !in p.roles { return false; }
      if p.fallback == Some(p.roles[name]) { p := p.(fallback := None); }
      p := p.(roles := p.roles - {name});
      active := Some(p);
      ok := true;
    }
  }

  // ----- Runs of mutations -----

  /** A reload brings a policy whose fallback is one of its own roles, as the loader builds it. */
  ghost predicate Admissible(c: Change) { c.Reload? ==> c.policy.FallbackOk() }

  ghost function RunChanges(p: Option<Policy>, cs: seq<Change>): Option<Policy> {
    if cs == [] then p else Apply(RunChanges(p, cs[..|cs| - 1]), cs[|cs| - 1], |cs|)
  }

  lemma ApplyKeepsFallback(p: Option<Policy>, c: Change, id: nat)
    requires (p.Some? ==> p.value.FallbackOk()) && Admissible(c)
    ensures Apply(p, c, id).Some? ==> Apply(p, c, id).value.FallbackOk()
  {
    var q := Apply(p, c, id);
    var cur := Current(p);
    if !Refused(p, c) && cur.fallback.Some? {
      var n :| n in cur.roles && cur.roles[n] == cur.fallback.value;
      if c.CreateRole? { assert q.value.roles[n] == cur.roles[n]; }
      if c.DeleteRole? && q.value.fallback.Some? { assert n in q.value.roles; }
    }
  }

  /**
   Over every run of mutations and valid reloads the fallback role is none or a current role,
   and no deletion of a user in the run took the last holder of ACL rights away.
   */
  lemma {:induction false} PolicyRun(p: Option<Policy>, cs: seq<Change>)
    requires (p.Some? ==> p.value.FallbackOk()) && forall i :: 0 <= i < |cs| ==> Admissible(cs[i])
    ensures RunChanges(p, cs).Some? ==> RunChanges(p, cs).value.FallbackOk()
    ensures forall i :: 0 <= i < |cs| && cs[i].DelUser? && Current(RunChanges(p, cs[..i])).HasAdmin() ==>
              Current(RunChanges(p, cs[..i + 1])).HasAdmin()
  {
    if cs != [] {
      var n := |cs| - 1;
      PolicyRun(p, cs[..n]);
      hide Policy.FallbackOk, Policy.HasAdmin, Admissible, Apply;
      assert Admissible(cs[n]);
      ApplyKeepsFallback(RunChanges(p, cs[..n]), cs[n], |cs|);
      forall i | 0 <= i < |cs| && cs[i].DelUser? && Current(RunChanges(p, cs[..i])).HasAdmin()
        ensures Current(RunChanges(p, cs[..i + 1])).HasAdmin()
      {
        if i < n {
          assert cs[..n][..i] == cs[..i] && cs[..n][..i + 1] == cs[..i + 1];
        } else {
          assert cs[..i + 1] == cs && cs[..i] == cs[..n];
          DelUserKeepsAdmin(RunChanges(p, cs[..n]), cs[n].user, |cs|);
        }
      }
    }
  }

  lemma DelUserKeepsAdmin(p: Option<Policy>, user: Text, id: nat)
    requires Current(p).HasAdmin()
    ensures Current(Apply(p, Change.DelUser(user), id)).HasAdmin()
  {
    hide Has;
    var cur, q := Current(p), Current(Apply(p, Change.DelUser(user), id));
    var a :| a in cur.users && cur.Admin(a);
    if q != cur {
      var b :| b in cur.users && b != user && cur.Admin(b);
      assert q.Admin(b);
    }
  }

  /** Re-assigning a user has no such guard: rights survive if and only if the new role or another user has them. */
  lemma SetUserAdminIff(p: Policy, user: Text, roleName: Text, hash: seq<byte>, id: nat)
    requires roleName in p.roles
    ensures Current(Apply(Some(p), Change.SetUser(user, roleName, hash), id)).HasAdmin() <==>
            (Has(p.roles[roleName].role.permissions, ACL) || exists u :: u in p.users && u != user && p.Admin(u))
  {
    hide Has;
    var q := Current(Apply(Some(p), Change.SetUser(user, roleName, hash), id));
    assert q.Admin(user) <==> Has(p.roles[roleName].role.permissions, ACL);
    assert forall u :: u in p.users && u != user ==> (q.Admin(u) <==> p.Admin(u));
    if q.HasAdmin() {
      var u :| u in q.users && q.Admin(u);
    }
  }

  /** What a user is left with once the role is gone. */
  predicate AdminWithout(p: Policy, name: Text, user: Text)
    requires name in p.roles && user in p.users
  {
    var r := p.users[user].role;
    if r in p.roles && r != name then Has(p.roles[r].role.permissions, ACL)
    else p.fallback.Some? && p.fallback.value != p.roles[name] && Has(p.fallback.value.role.permissions, ACL)
  }

  /** Nor has deleting a role: rights survive if and only if some user still reaches them without it. */
  lemma DeleteRoleAdminIff(p: Policy, name: Text, id: nat)
    requires name in p.roles
    ensures Current(Apply(Some(p), Change.DeleteRole(name), id)).HasAdmin()
            <==> exists u :: u in p.users && AdminWithout(p, name, u)
  {
    hide Has;
    var q := Current(Apply(Some(p), Change.DeleteRole(name), id));
    forall u | u in p.users ensures q.Admin(u) <==> AdminWithout(p, name, u) {}
    if q.HasAdmin() {
      var u :| u in q.users && q.Admin(u);
    }
  }

  /** The only administrator re-assigned to a role without rights, or robbed of the role: nobody is left. */
  lemma LastAdminLost(admin: Text, root: Text, plain: Text, id: nat)
    requires root != plain
    ensures var rights := Ref(0, Role(root, [256], []));
            var roles := map[root := rights, plain := Ref(1, Role(plain, [0], []))];
            var p := Policy(roles, map[admin := User(root, [])], None);
            && p.HasAdmin()
            && !Current(Apply(Some(p), Change.SetUser(admin, plain, []), id)).HasAdmin()
            && !Current(Apply(Some(p), Change.DeleteRole(root), id)).HasAdmin()
  {
    var rights := Ref(0, Role(root, [256], []));
    var roles := map[root := rights, plain := Ref(1, Role(plain, [0], []))];
    var p := Policy(roles, map[admin := User(root, [])], None);
    AclBit();
    hide Has;
    assert p.Admin(admin);
    SetUserAdminIff(p, admin, plain, [], id);
    DeleteRoleAdminIff(p, root, id);
  }

  /** Bit 8 of the first word is the ACL command. */
  lemma AclBit()
    ensures Has([256], ACL) && !Has([0], ACL)
  {
    assert On(256, 8) == On(64, 6) && On(64, 6) == On(16, 4) && On(16, 4) == On(4, 2) && On(4, 2) == On(1, 0);
    OnZero(8);
  }

  // ----- Sessions -----

  /** What a connection is pinned to at AUTH; no role denies everything. */
  datatype Session = Session(user: Text, role: Option<Ref>)
  {
    predicate AllowsCommand(cmd: u16) { role.Some? && Has(role.value.role.permissions, cmd) }

    predicate IsAllowed(cmd: u16, key: Text) { AllowsCommand(cmd) && role.value.role.AllowsKey(key) }
  }
}
