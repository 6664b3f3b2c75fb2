/** The OIDC authentication backend of accounts/oidc.py: matching a login to a
    local user by `preferred_username`, creating and updating users from the
    identity claims, and turning the `groups` claim into the two role flags.
    The user table is a map from username (unique) to the stored row; a user
    object is a `User` whose fields the backend assigns and `Save` writes back. */
module Oidc {
  import opened Common

  /** The `groups` claim: absent, a list of group names, or any other value. */
  datatype GroupsClaim = GroupsAbsent | GroupList(names: seq<string>) | GroupsNotAList

  /** The claims the backend reads; `None` is an absent claim. */
  datatype Claims = Claims(
    preferredUsername: Option<string>,
    email: Option<string>,
    givenName: Option<string>,
    familyName: Option<string>,
    groups: GroupsClaim)

  /** `OIDC_ADMIN_GROUP` and `OIDC_STAFF_GROUP`, `None` when not configured. */
  datatype Settings = Settings(adminGroup: Option<string>, staffGroup: Option<string>)

  const DefaultAdminGroup := "admin"
  const DefaultStaffGroup := "staff"

  function AdminGroup(s: Settings): (r: string)
    ensures s.adminGroup.None? ==> r == DefaultAdminGroup
    ensures s.adminGroup.Some? ==> r == s.adminGroup.value
  {
    s.adminGroup.GetOr(DefaultAdminGroup)
  }

  function StaffGroup(s: Settings): (r: string)
    ensures s.staffGroup.None? ==> r == DefaultStaffGroup
    ensures s.staffGroup.Some? ==> r == s.staffGroup.value
  {
    s.staffGroup.GetOr(DefaultStaffGroup)
  }

  /** The group names the sync looks at: an absent claim or one that is not
      a list counts as no groups. */
  function GroupNames(g: GroupsClaim): (r: seq<string>)
    ensures g.GroupList? ==> r == g.names
    ensures !g.GroupList? ==> r == []
  {
    match g
    case GroupList(names) => names
    case _ => []
  }

  datatype Roles = Roles(isStaff: bool, isSuperuser: bool)

  /** What `_sync_groups` sets: superuser exactly for the admin group, staff
      for the staff or the admin group. */
  function RolesFor(claims: Claims, s: Settings): (r: Roles)
    ensures r.isSuperuser <==> AdminGroup(s) in GroupNames(claims.groups)
    ensures r.isStaff <==> StaffGroup(s) in GroupNames(claims.groups) || AdminGroup(s) in GroupNames(claims.groups)
    ensures r.isSuperuser ==> r.isStaff
    ensures !claims.groups.GroupList? ==> !r.isStaff && !r.isSuperuser
  {
    var groups := GroupNames(claims.groups);
    Roles(StaffGroup(s) in groups || AdminGroup(s) in groups, AdminGroup(s) in groups)
  }

  /** The flags depend on the `groups` claim and the settings only. */
  lemma RolesOnlyFromGroups(a: Claims, b: Claims, s: Settings)
    requires GroupNames(a.groups) == GroupNames(b.groups)
    ensures RolesFor(a, s) == RolesFor(b, s)
  {
  }

  /** `claims.get("preferred_username")` when it is truthy: a missing or empty
      username matches and creates nobody. */
  function LoginName(claims: Claims): (r: Option<string>)
    ensures r.Some? <==> claims.preferredUsername.Some? && claims.preferredUsername.value != []
    ensures r.Some? ==> r.value == claims.preferredUsername.value
  {
    if claims.preferredUsername.Some? && claims.preferredUsername.value != [] then claims.preferredUsername else None
  }

  /** The fields of a user the backend reads or writes. */
  datatype Account = Account(username: string, email: string, firstName: string, lastName: string, isStaff: bool, isSuperuser: bool)

  function WithRoles(p: Account, r: Roles): Account {
    p.(isStaff := r.isStaff, isSuperuser := r.isSuperuser)
  }

  /** The row `User.objects.create_user` stores: email and names default to
      "", and a new user has neither flag. */
  function CreatedRow(claims: Claims): (r: Option<Account>)
    ensures r.Some? <==> LoginName(claims).Some?
    ensures r.Some? ==> r.value.username == LoginName(claims).value && !r.value.isStaff && !r.value.isSuperuser
    ensures r.Some? ==> r.value.email == claims.email.GetOr("") && r.value.firstName == claims.givenName.GetOr("")
    ensures r.Some? ==> r.value.lastName == claims.familyName.GetOr("")
  {
    match LoginName(claims)
    case None => None
    case Some(name) => Some(Account(name, claims.email.GetOr(""), claims.givenName.GetOr(""), claims.familyName.GetOr(""), false, false))
  }

  /** The user `create_user` returns: the stored row with the flags synced. */
  function CreatedAccount(claims: Claims, s: Settings): (r: Option<Account>)
    ensures r.Some? <==> LoginName(claims).Some?
    ensures r.Some? ==> r.value == WithRoles(CreatedRow(claims).value, RolesFor(claims, s))
  {
    match CreatedRow(claims)
    case None => None
    case Some(p) => Some(WithRoles(p, RolesFor(claims, s)))
  }

  /** `update_user`: a present claim overwrites the field, an absent one keeps
      it; the flags are recomputed from the groups whatever they were. */
  function UpdatedAccount(p: Account, claims: Claims, s: Settings): (r: Account)
    ensures r.username == p.username
    ensures r.email == (if claims.email.Some? then claims.email.value else p.email)
    ensures r.firstName == (if claims.givenName.Some? then claims.givenName.value else p.firstName)
    ensures r.lastName == (if claims.familyName.Some? then claims.familyName.value else p.lastName)
    ensures r.isStaff == RolesFor(claims, s).isStaff && r.isSuperuser == RolesFor(claims, s).isSuperuser
  {
    WithRoles(p.(email := claims.email.GetOr(p.email), firstName := claims.givenName.GetOr(p.firstName),
                 lastName := claims.familyName.GetOr(p.lastName)), RolesFor(claims, s))
  }

  /** Logging in twice with the same claims changes nothing the second time. */
  lemma UpdateIdempotent(p: Account, claims: Claims, s: Settings)
    ensures UpdatedAccount(UpdatedAccount(p, claims, s), claims, s) == UpdatedAccount(p, claims, s)
  {
  }

  /** The sync is destructive: flags set by hand before the login are lost. */
  lemma UpdateDiscardsFlags(p: Account, claims: Claims, s: Settings, isStaff: bool, isSuperuser: bool)
    ensures UpdatedAccount(p.(isStaff := isStaff, isSuperuser := isSuperuser), claims, s) == UpdatedAccount(p, claims, s)
  {
  }

  /** A user just created from some claims is already up to date with them. */
  lemma CreatedIsUpToDate(claims: Claims, s: Settings)
    requires LoginName(claims).Some?
    ensures UpdatedAccount(CreatedAccount(claims, s).value, claims, s) == CreatedAccount(claims, s).value
  {
  }

  /** Leaving every configured group revokes both flags at the next login. */
  lemma LeavingGroupsRevokes(p: Account, claims: Claims, s: Settings)
    requires AdminGroup(s) !in GroupNames(claims.groups) && StaffGroup(s) !in GroupNames(claims.groups)
    ensures !UpdatedAccount(p, claims, s).isStaff && !UpdatedAccount(p, claims, s).isSuperuser
  {
  }

  /** A user object, as `User.objects.get` or `create_user` hands it back. */
  class User {
    var username: string
    var email: string
    var firstName: string
    var lastName: string
    var isStaff: bool
    var isSuperuser: bool

    function AsAccount(): Account
      reads this
    {
      Account(username, email, firstName, lastName, isStaff, isSuperuser)
    }

    constructor (p: Account)
      ensures AsAccount() == p
    {
      username, email, firstName, lastName := p.username, p.email, p.firstName, p.lastName;
      isStaff, isSuperuser := p.isStaff, p.isSuperuser;
    }

    /** `_sync_groups(user, claims)`: assigns the two flags only. */
    method SyncGroups(claims: Claims, s: Settings)
      modifies this
      ensures AsAccount() == WithRoles(old(AsAccount()), RolesFor(claims, s))
    {
      var groups := GroupNames(claims.groups);
      var admin, staff := AdminGroup(s), StaffGroup(s);
      isSuperuser := admin in groups;
      isStaff := staff in groups || admin in groups;
    }
  }

  /** The user table, keyed by the unique username. */
  class UserTable {
    var rows: map<string, Account>

    ghost predicate Valid()
      reads this
    {
      forall n :: n in rows ==> rows[n].username == n
    }

    constructor ()
      ensures Valid() && rows == map[]
    {
      rows := map[];
    }

    /** The row `filter_users_by_claims` finds, if any. */
    function Lookup(claims: Claims): (r: Option<Account>)
      reads this
      ensures r.Some? <==> LoginName(claims).Some? && LoginName(claims).value in rows
      ensures r.Some? ==> r.value == rows[LoginName(claims).value]
      ensures Valid() && r.Some? ==> r.value.username == claims.preferredUsername.value
    {
      match LoginName(claims)
      case None => None
      case Some(name) => if name in rows then Some(rows[name]) else None
    }

    /** `filter_users_by_claims`: no user, or the one whose username is the
        claim, as a new object loaded from its row. */
    method FilterUsersByClaims(claims: Claims) returns (users: seq<User>)
      ensures |users| <= 1
      ensures |users| == 1 <==> Lookup(claims).Some?
      ensures |users| == 1 ==> fresh(users[0]) && users[0].AsAccount() == Lookup(claims).value
    {
      var found := Lookup(claims);
      if found.None? {
        return [];
      }
      var u := new User(found.value);
      users := [u];
    }

    /** `user.save()`: the object's fields become its row. */
    method Save(u: User)
      requires Valid()
      modifies this
      ensures Valid()
      ensures rows == old(rows)[u.username := u.AsAccount()]
    {
      rows := rows[u.username := u.AsAccount()];
    }

    /** `User.objects.create_user(...)`: stores the new row and returns its object. */
    method Insert(p: Account) returns (u: User)
      requires Valid() && p.username !in rows
      modifies this
      ensures Valid()
      ensures fresh(u) && u.AsAccount() == p
      ensures rows == old(rows)[p.username := p]
    {
      rows := rows[p.username := p];
      u := new User(p);
    }

    /** `create_user` as written: the row is stored before the flags are
        synced, and the object is not saved again, so the stored row keeps
        both flags false. */
    method CreateUserAsWritten(claims: Claims, s: Settings) returns (u: User?)
      requires Valid()
      requires LoginName(claims).Some? ==> LoginName(claims).value !in rows
      modifies this
      ensures Valid()
      ensures u == null <==> LoginName(claims).None?
      ensures u == null ==> rows == old(rows)
      ensures u != null ==> fresh(u) && u.AsAccount() == CreatedAccount(claims, s).value
      ensures u != null ==> rows == old(rows)[u.username := CreatedRow(claims).value]
    {
      var row := CreatedRow(claims);
      if row.None? {
        return null;
      }
      u := Insert(row.value);
      u.SyncGroups(claims, s);
    }

    /** `create_user` with the synced flags saved: the stored row is the
        user the backend returns. */
    method CreateUser(claims: Claims, s: Settings) returns (u: User?)
      requires Valid()
      requires LoginName(claims).Some? ==> LoginName(claims).value !in rows
      modifies this
      ensures Valid()
      ensures u == null <==> LoginName(claims).None?
      ensures u == null ==> rows == old(rows)
      ensures u != null ==> fresh(u) && u.AsAccount() == CreatedAccount(claims, s).value
      ensures u != null ==> rows == old(rows)[u.username := u.AsAccount()]
    {
      var row := CreatedRow(claims);
      if row.None? {
        return null;
      }
      u := Insert(row.value);
      u.SyncGroups(claims, s);
      Save(u);
    }

    /** `update_user`: assign the claimed fields, sync the flags, save. */
    method UpdateUser(u: User, claims: Claims, s: Settings)
      requires Valid()
      modifies this, u
      ensures Valid()
      ensures u.AsAccount() == UpdatedAccount(old(u.AsAccount()), claims, s)
      ensures rows == old(rows)[u.username := u.AsAccount()]
    {
      u.email := claims.email.GetOr(u.email);
      u.firstName := claims.givenName.GetOr(u.firstName);
      u.lastName := claims.familyName.GetOr(u.lastName);
      u.SyncGroups(claims, s);
      Save(u);
    }
  }

  /** An admin's first login as written: the returned user is staff and
      superuser, the stored row is neither. */
  lemma FirstLoginFlagsLost()
    ensures var claims := Claims(Some("alice"), None, None, None, GroupList(["admin"]));
      var s := Settings(None, None);
      CreatedAccount(claims, s).value.isSuperuser && CreatedAccount(claims, s).value.isStaff &&
      !CreatedRow(claims).value.isSuperuser && !CreatedRow(claims).value.isStaff
  {
    var claims := Claims(Some("alice"), None, None, None, GroupList(["admin"]));
    assert GroupNames(claims.groups)[0] == AdminGroup(Settings(None, None));
  }

  /** With the save, a created user's stored row carries the flags of its
      groups, and the next login with the same claims changes nothing. */
  lemma CreatedRowHasRoles(claims: Claims, s: Settings)
    requires LoginName(claims).Some?
    ensures var stored := CreatedAccount(claims, s).value;
      stored.isStaff == RolesFor(claims, s).isStaff && stored.isSuperuser == RolesFor(claims, s).isSuperuser &&
      UpdatedAccount(stored, claims, s) == stored
  {
    CreatedIsUpToDate(claims, s);
  }
}
