/** The dashboard shell: the role-filtered navigation and the active-link
    rule. */
module Dashboard {
  import opened Wrappers
  import Auth
  import Seqs
  import Text

  /** The role names the navigation list is written against: the three of
      the declared user role type, plus `super`, which that type does not
      include. The role read from the profile table is cast to the declared
      type without a check; the model takes the declared type at its word. */
  datatype NavRole = AdminRole | SuperRole | RegularRole | VisitorRole

  datatype NavItem = NavItem(name: string, path: string, roles: seq<NavRole>)

  const OverviewPath := "/dashboard"

  /** The six entries with the roles allowed to see each. The list names a
      `super` role outside the declared user role type. */
  const NavItems: seq<NavItem> := [
    NavItem("Overview", OverviewPath, [AdminRole, SuperRole]),
    NavItem("Commands", "/dashboard/commands", [AdminRole, SuperRole, RegularRole, VisitorRole]),
    NavItem("Themes", "/dashboard/themes", [AdminRole, SuperRole, RegularRole, VisitorRole]),
    NavItem("Guilds", "/dashboard/guilds", [AdminRole, SuperRole, RegularRole, VisitorRole]),
    NavItem("User Management", "/dashboard/users", [AdminRole]),
    NavItem("Settings", "/dashboard/settings", [AdminRole, SuperRole])
  ]

  function RoleName(r: Auth.Role): NavRole {
    match r
    case Admin => AdminRole
    case Regular => RegularRole
    case Visitor => VisitorRole
  }

  /** `user?.role || 'visitor'`: a missing user browses as a visitor. Every
      role a user can carry is a non-empty name, so the fallback applies
      only when nobody is signed in. */
  function EffectiveRole(user: Option<Auth.User>): (r: NavRole)
    ensures r != SuperRole
    ensures user.None? ==> r == VisitorRole
    ensures user.Some? ==> r == RoleName(user.value.role)
  {
    if user.Some? then RoleName(user.value.role) else VisitorRole
  }

  function ShownTo(role: NavRole): NavItem -> bool {
    (item: NavItem) => role in item.roles
  }

  /** `filteredNavItems`: the entries whose roles include the user's, in order. */
  function FilteredNavItems(items: seq<NavItem>, user: Option<Auth.User>): (r: seq<NavItem>)
    ensures Seqs.IsSubsequence(r, items)
    ensures forall i :: 0 <= i < |r| ==> EffectiveRole(user) in r[i].roles
    ensures forall i :: 0 <= i < |items| && EffectiveRole(user) in items[i].roles ==> items[i] in r
    ensures forall item :: multiset(r)[item] == if EffectiveRole(user) in item.roles then multiset(items)[item] else 0
  {
    Seqs.FilterIsSubsequence(ShownTo(EffectiveRole(user)), items);
    Seqs.FilterMembers(ShownTo(EffectiveRole(user)), items);
    Seqs.Filter(ShownTo(EffectiveRole(user)), items)
  }

  /** One step of `Filter` from position `k` onwards. */
  lemma FilterFrom<T>(p: T -> bool, s: seq<T>, k: nat)
    requires k < |s|
    ensures Seqs.Filter(p, s[k..]) == (if p(s[k]) then [s[k]] else []) + Seqs.Filter(p, s[k + 1..])
  {
    assert s[k..][1..] == s[k + 1..];
  }

  /** Filtering six entries of which exactly the middle three pass. */
  lemma FilterMiddleThree<T>(p: T -> bool, n: seq<T>)
    requires |n| == 6
    requires p(n[1]) && p(n[2]) && p(n[3])
    requires !p(n[0]) && !p(n[4]) && !p(n[5])
    ensures Seqs.Filter(p, n) == [n[1], n[2], n[3]]
  {
    assert n[6..] == [];
    FilterFrom(p, n, 5);
    FilterFrom(p, n, 4);
    assert Seqs.Filter(p, n[4..]) == [];
    FilterFrom(p, n, 3);
    assert Seqs.Filter(p, n[3..]) == [n[3]];
    FilterFrom(p, n, 2);
    assert Seqs.Filter(p, n[2..]) == [n[2], n[3]];
    FilterFrom(p, n, 1);
    assert Seqs.Filter(p, n[1..]) == [n[1], n[2], n[3]];
    FilterFrom(p, n, 0);
    assert n[0..] == n;
  }

  /** Nobody signed in, visitors and regular users see Commands, Themes and
      Guilds; an admin sees all six entries. */
  lemma NavByRole(user: Option<Auth.User>)
    ensures user.None? || user.value.role != Auth.Admin ==>
      FilteredNavItems(NavItems, user) == [NavItems[1], NavItems[2], NavItems[3]]
    ensures user.Some? && user.value.role == Auth.Admin ==> FilteredNavItems(NavItems, user) == NavItems
  {
    var role := EffectiveRole(user);
    var p := ShownTo(role);
    var n := NavItems;
    if role == AdminRole {
      assert forall k :: 0 <= k < |n| ==> p(n[k]);
      Seqs.FilterKeepsAll(p, n);
    } else {
      assert p(n[1]) && p(n[2]) && p(n[3]);
      assert !p(n[0]) && !p(n[4]) && !p(n[5]);
      FilterMiddleThree(p, n);
    }
  }

  /** Only an admin sees User Management. */
  lemma UserManagementAdminOnly(user: Option<Auth.User>)
    ensures NavItems[4] in FilteredNavItems(NavItems, user) <==> user.Some? && user.value.role == Auth.Admin
  {
    NavByRole(user);
    assert NavItems[4] != NavItems[1] && NavItems[4] != NavItems[2] && NavItems[4] != NavItems[3];
  }

  /** `isActive`: the overview entry is active only on its own page; any
      other entry is active anywhere below its path. */
  predicate IsActive(pathname: string, path: string) {
    if path == OverviewPath then pathname == OverviewPath else Text.StartsWith(pathname, path)
  }

  /** A string that starts with `a` does not start with a `b` that differs
      from `a` at a position both have. */
  lemma PrefixesExclude(s: string, a: string, b: string, k: nat)
    requires Text.StartsWith(s, a)
    requires k < |a| && k < |b| && a[k] != b[k]
    ensures !Text.StartsWith(s, b)
  {
    assert s[k] == s[..|a|][k] == a[k];
  }

  /** For any location at most one navigation entry is highlighted: the
      overview entry needs the exact path, and the others differ right
      after the shared `/dashboard/`. */
  lemma AtMostOneActive(pathname: string, i: nat, j: nat)
    requires i < j < |NavItems|
    ensures IsActive(pathname, NavItems[i].path) ==> !IsActive(pathname, NavItems[j].path)
  {
    var a := NavItems[i].path;
    var b := NavItems[j].path;
    assert b != OverviewPath && |b| > 11;
    if IsActive(pathname, a) {
      if i == 0 {
        assert |pathname| == 10;
      } else {
        assert a != OverviewPath && |a| > 11 && a[11] != b[11];
        PrefixesExclude(pathname, a, b, 11);
      }
    }
  }
}
