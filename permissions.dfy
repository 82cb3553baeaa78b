/**
 * The permission map inversion (helpers/permissions.helper.ts): a map from each
 * permission to the roles that hold it becomes a list of roles, each with the permissions
 * it holds.  The input object is given by its entries in `Object.keys` order.
 */
module Permissions {

  /** One property of the permissions map: a permission and the roles listed for it. */
  datatype Entry = Entry(permission: string, roles: seq<string>)

  /** One element of the result: `{ role, permissions }`. */
  datatype RolePermissions = RolePermissions(role: string, permissions: seq<string>)

  /** A (permission, role) pair, one per visit of the inner `forEach`. */
  datatype Grant = Grant(permission: string, role: string)

  /** The grants of one entry, in the order of its role list. */
  function GrantsOf(permission: string, roles: seq<string>): (r: seq<Grant>)
    ensures |r| == |roles|
    ensures forall k :: 0 <= k < |roles| ==> r[k] == Grant(permission, roles[k])
  {
    seq(|roles|, k requires 0 <= k < |roles| => Grant(permission, roles[k]))
  }

  /** Every grant, in the order the two nested loops visit them. */
  function Grants(entries: seq<Entry>): seq<Grant>
    decreases |entries|
  {
    if entries == [] then []
    else
      var last := entries[|entries| - 1];
      Grants(entries[..|entries| - 1]) + GrantsOf(last.permission, last.roles)
  }

  /** The roles of `gs`, each once, in the order they are first granted: the key order of
      the `rolePermissions` object. */
  function RoleOrder(gs: seq<Grant>): seq<string>
    decreases |gs|
  {
    if gs == [] then []
    else
      var rest := RoleOrder(gs[..|gs| - 1]);
      var role := gs[|gs| - 1].role;
      if role in rest then rest else rest + [role]
  }

  /** The permissions granted to `role` in `gs`, in order, duplicates kept. */
  function PermissionsOf(gs: seq<Grant>, role: string): seq<string>
    decreases |gs|
  {
    if gs == [] then []
    else
      var g := gs[|gs| - 1];
      PermissionsOf(gs[..|gs| - 1], role) + (if g.role == role then [g.permission] else [])
  }

  /** What the helper returns, stated on the grants. */
  function Inverted(entries: seq<Entry>): seq<RolePermissions> {
    var gs := Grants(entries);
    var order := RoleOrder(gs);
    seq(|order|, k requires 0 <= k < |order| => RolePermissions(order[k], PermissionsOf(gs, order[k])))
  }

  /** The dictionary and its key order describe the grants seen so far. */
  ghost predicate Describes(table: map<string, seq<string>>, order: seq<string>, gs: seq<Grant>) {
    order == RoleOrder(gs) &&
    (forall x :: x in table <==> x in order) &&
    (forall x :: x in table ==> table[x] == PermissionsOf(gs, x))
  }

  /** One more grant: a new role is appended to the key order; only its list grows. */
  lemma GrantStep(gs: seq<Grant>, g: Grant)
    ensures RoleOrder(gs + [g]) == if g.role in RoleOrder(gs) then RoleOrder(gs) else RoleOrder(gs) + [g.role]
    ensures forall x :: PermissionsOf(gs + [g], x) ==
                        PermissionsOf(gs, x) + (if x == g.role then [g.permission] else [])
  {
    assert (gs + [g])[..|gs + [g]| - 1] == gs;
  }

  /** One grant recorded in the dictionary: the role's list, created empty on its first
      grant, gets the permission pushed onto it; a new role joins the key order. */
  lemma DescribesStep(table: map<string, seq<string>>, order: seq<string>, gs: seq<Grant>, g: Grant,
                      table': map<string, seq<string>>, order': seq<string>)
    requires Describes(table, order, gs)
    requires g.role in table ==> table' == table[g.role := table[g.role] + [g.permission]] && order' == order
    requires g.role !in table ==> table' == table[g.role := [g.permission]] && order' == order + [g.role]
    ensures Describes(table', order', gs + [g])
  {
    GrantStep(gs, g);
    forall x ensures x in table' <==> x in order' {
      assert x in order' <==> x in order || x == g.role;
    }
    forall x | x in table' ensures table'[x] == PermissionsOf(gs + [g], x) {
      if x == g.role && g.role !in table {
        assert g.role !in order;
        RoleOrderSpec(gs);
        NotGrantedEmpty(gs, g.role);
      }
    }
  }

  /** The grants of a longer prefix of a role list. */
  lemma GrantsOfSnoc(permission: string, roles: seq<string>, j: nat)
    requires j < |roles|
    ensures GrantsOf(permission, roles[..j + 1]) == GrantsOf(permission, roles[..j]) + [Grant(permission, roles[j])]
  {
  }

  /** The inner loop: the roles of one permission, in list order. */
  method GrantRoles(table: map<string, seq<string>>, order: seq<string>, ghost gs: seq<Grant>,
                    permission: string, roles: seq<string>)
    returns (table': map<string, seq<string>>, order': seq<string>)
    requires Describes(table, order, gs)
    ensures Describes(table', order', gs + GrantsOf(permission, roles))
  {
    table', order' := table, order;
    ghost var seen := gs;
    var j := 0;
    assert gs + GrantsOf(permission, roles[..0]) == gs;
    while j < |roles|
      invariant 0 <= j <= |roles|
      invariant seen == gs + GrantsOf(permission, roles[..j])
      invariant Describes(table', order', seen)
    {
      var role := roles[j];
      ghost var before, orderBefore := table', order';
      if role !in table' {
        table' := table'[role := []];
        order' := order' + [role];
      }
      table' := table'[role := table'[role] + [permission]];
      assert role !in before ==> table' == before[role := [permission]] by {
        assert [] + [permission] == [permission];
      }
      DescribesStep(before, orderBefore, seen, Grant(permission, role), table', order');
      GrantsOfSnoc(permission, roles, j);
      seen := seen + [Grant(permission, role)];
      j := j + 1;
    }
    assert roles[..j] == roles;
  }

  /**
   * migratePermissionsMapToRolePermissionsMap (permissions.helper.ts:11-27): the nested
   * loops fill the `rolePermissions` dictionary, creating a role's list on its first
   * grant, and the result lists the roles in key order.
   */
  method Migrate(entries: seq<Entry>) returns (out: seq<RolePermissions>)
    ensures out == Inverted(entries)
  {
    var table: map<string, seq<string>> := map[];
    var order: seq<string> := [];
    var i := 0;
    while i < |entries|
      invariant 0 <= i <= |entries|
      invariant Describes(table, order, Grants(entries[..i]))
    {
      assert entries[..i + 1][..i] == entries[..i];
      table, order := GrantRoles(table, order, Grants(entries[..i]), entries[i].permission, entries[i].roles);
      i := i + 1;
    }
    assert entries[..i] == entries;
    out := seq(|order|, k requires 0 <= k < |order| => RolePermissions(order[k], table[order[k]]));
  }

  /** A permission is granted to a role iff that role is listed for it. */
  lemma {:induction false} GrantsMembers(entries: seq<Entry>, g: Grant)
    ensures g in Grants(entries) <==> exists k :: 0 <= k < |entries| && entries[k].permission == g.permission &&
                                                  g.role in entries[k].roles
    decreases |entries|
  {
    if entries != [] {
      var init, last := entries[..|entries| - 1], entries[|entries| - 1];
      GrantsMembers(init, g);
      var tail := GrantsOf(last.permission, last.roles);
      assert g in tail <==> last.permission == g.permission && g.role in last.roles by {
        if g.role in last.roles {
          var k :| 0 <= k < |last.roles| && last.roles[k] == g.role;
          assert tail[k] == Grant(last.permission, g.role);
        }
      }
      if g in Grants(init) {
        var k :| 0 <= k < |init| && init[k].permission == g.permission && g.role in init[k].roles;
        assert entries[k] == init[k];
      }
      if exists k :: 0 <= k < |entries| && entries[k].permission == g.permission && g.role in entries[k].roles {
        var k :| 0 <= k < |entries| && entries[k].permission == g.permission && g.role in entries[k].roles;
        if k < |init| { assert init[k] == entries[k]; }
      }
    }
  }

  /** A role's list holds a permission iff the role was granted it. */
  lemma {:induction false} PermissionsOfMembers(gs: seq<Grant>, role: string, p: string)
    ensures p in PermissionsOf(gs, role) <==> Grant(p, role) in gs
    decreases |gs|
  {
    if gs != [] {
      var init := gs[..|gs| - 1];
      PermissionsOfMembers(init, role, p);
      assert gs == init + [gs[|gs| - 1]];
    }
  }

  /** Some grant in `gs` is to `role`. */
  ghost predicate Granted(gs: seq<Grant>, role: string) {
    exists g :: g in gs && g.role == role
  }

  /** A role never granted has an empty list. */
  lemma {:induction false} NotGrantedEmpty(gs: seq<Grant>, role: string)
    requires !Granted(gs, role)
    ensures PermissionsOf(gs, role) == []
    decreases |gs|
  {
    if gs != [] {
      var init := gs[..|gs| - 1];
      assert gs == init + [gs[|gs| - 1]];
      assert gs[|gs| - 1] in gs;
      assert !Granted(init, role) by {
        forall g | g in init ensures g.role != role {
          assert g in gs;
        }
      }
      NotGrantedEmpty(init, role);
    }
  }

  /** The roles of the key order are exactly the granted roles, each once. */
  lemma {:induction false} RoleOrderSpec(gs: seq<Grant>)
    ensures forall x :: x in RoleOrder(gs) <==> Granted(gs, x)
    ensures forall i, j :: 0 <= i < j < |RoleOrder(gs)| ==> RoleOrder(gs)[i] != RoleOrder(gs)[j]
    decreases |gs|
  {
    if gs != [] {
      var init := gs[..|gs| - 1];
      RoleOrderSpec(init);
      assert gs == init + [gs[|gs| - 1]];
    }
  }

  /** Permission p appears in role r's list iff r is listed for p in the input. */
  lemma InvertedMembers(entries: seq<Entry>, r: string, p: string)
    ensures (exists k :: 0 <= k < |Inverted(entries)| && Inverted(entries)[k].role == r &&
                         p in Inverted(entries)[k].permissions) <==>
            exists k :: 0 <= k < |entries| && entries[k].permission == p && r in entries[k].roles
  {
    var gs := Grants(entries);
    var out := Inverted(entries);
    GrantsMembers(entries, Grant(p, r));
    PermissionsOfMembers(gs, r, p);
    RoleOrderSpec(gs);
    if Grant(p, r) in gs {
      assert Granted(gs, r);
      assert r in RoleOrder(gs);
      var k :| 0 <= k < |RoleOrder(gs)| && RoleOrder(gs)[k] == r;
      assert out[k].role == r && p in out[k].permissions;
    }
  }

  /** Some entry of the input lists `role`. */
  ghost predicate Listed(entries: seq<Entry>, role: string) {
    exists k :: 0 <= k < |entries| && role in entries[k].roles
  }

  /** Some element of the result is for `role`. */
  ghost predicate HasRole(out: seq<RolePermissions>, role: string) {
    exists k :: 0 <= k < |out| && out[k].role == role
  }

  /** Each role appears once, and a role appears iff some permission lists it. */
  lemma InvertedRoles(entries: seq<Entry>)
    ensures forall i, j :: 0 <= i < j < |Inverted(entries)| ==> Inverted(entries)[i].role != Inverted(entries)[j].role
    ensures forall r :: HasRole(Inverted(entries), r) <==> Listed(entries, r)
  {
    var gs := Grants(entries);
    var out := Inverted(entries);
    RoleOrderSpec(gs);
    forall r ensures HasRole(out, r) <==> Listed(entries, r) {
      if HasRole(out, r) {
        var k :| 0 <= k < |out| && out[k].role == r;
        assert RoleOrder(gs)[k] == r;
        assert Granted(gs, r);
        var g :| g in gs && g.role == r;
        GrantsMembers(entries, g);
      }
      if Listed(entries, r) {
        var k :| 0 <= k < |entries| && r in entries[k].roles;
        GrantsMembers(entries, Grant(entries[k].permission, r));
        assert Granted(gs, r);
        assert r in RoleOrder(gs);
        var i :| 0 <= i < |RoleOrder(gs)| && RoleOrder(gs)[i] == r;
        assert out[i].role == r;
      }
    }
  }

  /** An empty map gives an empty list. */
  lemma InvertedEmpty()
    ensures Inverted([]) == []
  {
  }

  /** The number of roles listed over all entries. */
  function RoleCount(entries: seq<Entry>): nat
    decreases |entries|
  {
    if entries == [] then 0 else RoleCount(entries[..|entries| - 1]) + |entries[|entries| - 1].roles|
  }

  /** The number of permissions over all the lists of `out`. */
  function PermissionCount(out: seq<RolePermissions>): nat
    decreases |out|
  {
    if out == [] then 0 else PermissionCount(out[..|out| - 1]) + |out[|out| - 1].permissions|
  }

  /** The permissions of the roles of `order` in `gs`, counted. */
  function ListedCount(order: seq<string>, gs: seq<Grant>): nat
    decreases |order|
  {
    if order == [] then 0 else ListedCount(order[..|order| - 1], gs) + |PermissionsOf(gs, order[|order| - 1])|
  }

  /** A grant to `role` adds one to the count of a list of distinct roles that holds
      `role`, and nothing to one that does not. */
  lemma {:induction false} ListedCountStep(order: seq<string>, gs: seq<Grant>, g: Grant)
    requires forall i, j :: 0 <= i < j < |order| ==> order[i] != order[j]
    ensures ListedCount(order, gs + [g]) == ListedCount(order, gs) + (if g.role in order then 1 else 0)
    decreases |order|
  {
    GrantStep(gs, g);
    if order != [] {
      var init := order[..|order| - 1];
      assert order == init + [order[|order| - 1]];
      ListedCountStep(init, gs, g);
    }
  }

  /** Every grant is counted once in the lists of the key order. */
  lemma {:induction false} ListedCountAll(gs: seq<Grant>)
    ensures ListedCount(RoleOrder(gs), gs) == |gs|
    decreases |gs|
  {
    if gs != [] {
      var init, g := gs[..|gs| - 1], gs[|gs| - 1];
      assert gs == init + [g];
      ListedCountAll(init);
      RoleOrderSpec(init);
      RoleOrderSpec(gs);
      GrantStep(init, g);
      if g.role in RoleOrder(init) {
        ListedCountStep(RoleOrder(init), init, g);
      } else {
        ListedCountStep(RoleOrder(init), init, g);
        NotGrantedEmpty(init, g.role);
        assert RoleOrder(gs) == RoleOrder(init) + [g.role];
        assert RoleOrder(gs)[..|RoleOrder(gs)| - 1] == RoleOrder(init);
      }
    }
  }

  /** As many grants as roles listed. */
  lemma {:induction false} GrantsCount(entries: seq<Entry>)
    ensures |Grants(entries)| == RoleCount(entries)
    decreases |entries|
  {
    if entries != [] {
      GrantsCount(entries[..|entries| - 1]);
    }
  }

  /** The counts of a list built position by position. */
  lemma {:induction false} PermissionCountOf(order: seq<string>, gs: seq<Grant>, out: seq<RolePermissions>)
    requires |out| == |order|
    requires forall k :: 0 <= k < |order| ==> out[k].permissions == PermissionsOf(gs, order[k])
    ensures PermissionCount(out) == ListedCount(order, gs)
    decreases |order|
  {
    if order != [] {
      PermissionCountOf(order[..|order| - 1], gs, out[..|out| - 1]);
    }
  }

  /** The lists hold, all together, as many permissions as the input lists roles:
      duplicates are kept. */
  lemma InvertedCount(entries: seq<Entry>)
    ensures PermissionCount(Inverted(entries)) == RoleCount(entries)
  {
    var gs := Grants(entries);
    PermissionCountOf(RoleOrder(gs), gs, Inverted(entries));
    ListedCountAll(gs);
    GrantsCount(entries);
  }

  /** `x` repeated `n` times. */
  function Repeat(x: string, n: nat): (r: seq<string>)
    ensures |r| == n && forall k :: 0 <= k < n ==> r[k] == x
  {
    if n == 0 then [] else Repeat(x, n - 1) + [x]
  }

  /** How often `role` is listed in `roles`. */
  function Occurrences(roles: seq<string>, role: string): nat
    decreases |roles|
  {
    if roles == [] then 0
    else Occurrences(roles[..|roles| - 1], role) + (if roles[|roles| - 1] == role then 1 else 0)
  }

  /** A role's permissions in key order: each key of the input, in turn, as many times as
      the role is listed for it. */
  function InKeyOrder(entries: seq<Entry>, role: string): seq<string>
    decreases |entries|
  {
    if entries == [] then []
    else
      var last := entries[|entries| - 1];
      InKeyOrder(entries[..|entries| - 1], role) + Repeat(last.permission, Occurrences(last.roles, role))
  }

  lemma {:induction false} PermissionsOfAppend(gs: seq<Grant>, hs: seq<Grant>, role: string)
    ensures PermissionsOf(gs + hs, role) == PermissionsOf(gs, role) + PermissionsOf(hs, role)
    decreases |hs|
  {
    if hs == [] {
      assert gs + hs == gs;
    } else {
      var init := hs[..|hs| - 1];
      assert (gs + hs)[..|gs + hs| - 1] == gs + init;
      PermissionsOfAppend(gs, init, role);
    }
  }

  lemma {:induction false} PermissionsOfEntry(permission: string, roles: seq<string>, role: string)
    ensures PermissionsOf(GrantsOf(permission, roles), role) == Repeat(permission, Occurrences(roles, role))
    decreases |roles|
  {
    if roles != [] {
      var init := roles[..|roles| - 1];
      var gs := GrantsOf(permission, roles);
      assert gs[..|gs| - 1] == GrantsOf(permission, init);
      PermissionsOfEntry(permission, init, role);
    }
  }

  /** Within one role, permissions appear in the order of the input's keys. */
  lemma {:induction false} InvertedOrder(entries: seq<Entry>, role: string)
    ensures PermissionsOf(Grants(entries), role) == InKeyOrder(entries, role)
    decreases |entries|
  {
    if entries != [] {
      var init, last := entries[..|entries| - 1], entries[|entries| - 1];
      InvertedOrder(init, role);
      PermissionsOfAppend(Grants(init), GrantsOf(last.permission, last.roles), role);
      PermissionsOfEntry(last.permission, last.roles, role);
    }
  }
}
