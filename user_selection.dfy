/**
 * The user-selection rule of the admin user table: which rows the current
 * panel role may tick, whether the "select all" box shows as ticked, and
 * how ticking one row or the "select all" box changes the selection.
 */
module UserSelection {
  import opened Wrappers
  import opened Strings

  /** The panel role: site owner, administrator, or none. */
  datatype Role = Owner | Admin | NoRole

  /** A row of the user table; `role` is the user's own role (`owner`, `admin` or `user`). */
  datatype User = User(username: string, role: string)

  /** `getAuthInfoFromBrowserCookie()?.username || null`. */
  function CurrentUsername(cookieUsername: Option<string>): (r: Option<string>)
    ensures r.Some? <==> cookieUsername.Some? && cookieUsername.value != ""
    ensures r.Some? ==> r == cookieUsername
  {
    if cookieUsername.Some? && cookieUsername.value != "" then cookieUsername else None
  }

  /** The owner may tick every row; an admin only plain users and their own row. */
  predicate Selectable(role: Role, current: Option<string>, u: User) {
    role == Owner || (role == Admin && (u.role == "user" || (current.Some? && u.username == current.value)))
  }

  /** `Users?.filter(selectable)`; a missing config or user list counts as empty. */
  function SelectableUsers(role: Role, current: Option<string>, users: Option<seq<User>>): (r: seq<User>)
    ensures users.None? ==> r == []
    ensures forall u :: u in r <==> users.Some? && u in users.value && Selectable(role, current, u)
    ensures users.Some? ==> |r| <= |users.value|
  {
    if users.None? then [] else Filter(role, current, users.value)
  }

  function Filter(role: Role, current: Option<string>, users: seq<User>): (r: seq<User>)
    ensures forall u :: u in r <==> u in users && Selectable(role, current, u)
    ensures |r| <= |users|
    decreases |users|
  {
    if users == [] then []
    else
      var rest := Filter(role, current, users[1..]);
      assert forall u :: u in users <==> u == users[0] || u in users[1..] by {
        assert users == [users[0]] + users[1..];
      }
      if Selectable(role, current, users[0]) then [users[0]] + rest else rest
  }

  /**
   * An empty cookie name counts as no current user, so an admin then selects
   * only plain users, even a row whose name is empty; a non-empty cookie name
   * makes the admin's own row selectable.
   */
  lemma EmptyCookieNameIsNoCurrentUser(users: seq<User>, u: User, name: string)
    requires u in users
    ensures u in SelectableUsers(Admin, CurrentUsername(Some("")), Some(users)) <==> u.role == "user"
    ensures name != "" && u.username == name ==> u in SelectableUsers(Admin, CurrentUsername(Some(name)), Some(users))
  {
  }

  /** A single row is kept exactly when the rule allows it. */
  lemma FilterSingleton(role: Role, current: Option<string>, u: User)
    ensures Filter(role, current, [u]) == if Selectable(role, current, u) then [u] else []
  {
    assert [u][1..] == [];
  }

  /** Filtering a list with a first row decides that row and filters the rest. */
  lemma FilterCons(role: Role, current: Option<string>, u: User, rest: seq<User>)
    ensures Filter(role, current, [u] + rest) ==
      (if Selectable(role, current, u) then [u] else []) + Filter(role, current, rest)
  {
    assert ([u] + rest)[0] == u;
    assert ([u] + rest)[1..] == rest;
  }

  /** One step of `FilterAppend`: the property survives putting a row in front of `a`. */
  lemma FilterAppendStep(role: Role, current: Option<string>, u: User, a: seq<User>, b: seq<User>)
    requires Filter(role, current, a + b) == Filter(role, current, a) + Filter(role, current, b)
    ensures Filter(role, current, [u] + a + b) == Filter(role, current, [u] + a) + Filter(role, current, b)
  {
    var head := if Selectable(role, current, u) then [u] else [];
    ConcatAssoc([u], a, b);
    FilterCons(role, current, u, a + b);
    FilterCons(role, current, u, a);
    ConcatAssoc(head, Filter(role, current, a), Filter(role, current, b));
  }

  /**
   * Filtering a concatenation filters each part in turn; with the singleton
   * case this fixes the selectable rows, their order and their number.
   */
  lemma {:induction false} FilterAppend(role: Role, current: Option<string>, a: seq<User>, b: seq<User>)
    ensures Filter(role, current, a + b) == Filter(role, current, a) + Filter(role, current, b)
    decreases |a|
  {
    if a == [] {
      assert a + b == b;
    } else {
      FilterAppend(role, current, a[1..], b);
      FilterAppendStep(role, current, a[0], a[1..], b);
      assert a == [a[0]] + a[1..];
    }
  }

  /** The owner keeps every row, in order. */
  lemma {:induction false} OwnerSelectsEveryone(current: Option<string>, users: seq<User>)
    ensures Filter(Owner, current, users) == users
    decreases |users|
  {
    if users != [] {
      OwnerSelectsEveryone(current, users[1..]);
      assert [users[0]] + users[1..] == users;
    }
  }

  /** Without a role nothing is selectable. */
  lemma {:induction false} NoRoleSelectsNobody(current: Option<string>, users: seq<User>)
    ensures Filter(NoRole, current, users) == []
    decreases |users|
  {
    if users != [] {
      NoRoleSelectsNobody(current, users[1..]);
    }
  }

  /** An admin may select `u` iff it is a plain user or the admin's own row. */
  lemma AdminSelectable(current: Option<string>, users: seq<User>, u: User)
    requires u in users
    ensures u in Filter(Admin, current, users) <==> u.role == "user" || (current.Some? && u.username == current.value)
  {
  }

  function Usernames(users: seq<User>): (names: seq<string>)
    ensures |names| == |users|
    ensures forall i :: 0 <= i < |users| ==> names[i] == users[i].username
  {
    seq(|users|, i requires 0 <= i < |users| => users[i].username)
  }

  function AsSet(names: seq<string>): set<string> {
    set n | n in names
  }

  /** A list without repeats has as many members as its set. */
  lemma {:induction false} SizeOfDistinct(names: seq<string>)
    requires Distinct(names)
    ensures |AsSet(names)| == |names|
    decreases |names|
  {
    if names != [] {
      var rest := names[1..];
      SizeOfDistinct(rest);
      assert names[0] !in rest by {
        forall i | 0 <= i < |rest| ensures rest[i] != names[0] {
          assert rest[i] == names[i + 1];
        }
      }
      assert AsSet(names) == {names[0]} + AsSet(rest) by {
        assert names == [names[0]] + rest;
      }
    }
  }

  /** `selectAllUsers`: the selection has as many names as there are selectable rows, and at least one. */
  function AllSelected(selected: set<string>, role: Role, current: Option<string>, users: Option<seq<User>>): bool {
    |selected| == |SelectableUsers(role, current, users)| && |selected| > 0
  }

  /** It compares counts only: a selection of one name outside the table still shows as "all". */
  lemma AllSelectedComparesCounts()
    ensures AllSelected({"someone-else"}, Owner, None, Some([User("alice", "user")]))
    ensures "alice" !in {"someone-else"}
  {
    assert SelectableUsers(Owner, None, Some([User("alice", "user")])) == [User("alice", "user")] by {
      OwnerSelectsEveryone(None, [User("alice", "user")]);
    }
  }

  /** And two rows with the same name can never show as all selected after "select all". */
  lemma DuplicateNamesNeverAllSelected()
    ensures var users := [User("bob", "user"), User("bob", "admin")];
      !AllSelected(AsSet(Usernames(SelectableUsers(Owner, None, Some(users)))), Owner, None, Some(users))
  {
    var users := [User("bob", "user"), User("bob", "admin")];
    OwnerSelectsEveryone(None, users);
    assert Usernames(users) == ["bob", "bob"];
    assert AsSet(["bob", "bob"]) == {"bob"};
  }

  /** The selection state of the user table. */
  class UserTable {
    const role: Role
    const currentUsername: Option<string>
    const users: Option<seq<User>>
    var selectedUsers: set<string>

    constructor (role: Role, currentUsername: Option<string>, users: Option<seq<User>>)
      ensures this.role == role && this.currentUsername == currentUsername && this.users == users
      ensures selectedUsers == {}
    {
      this.role := role;
      this.currentUsername := currentUsername;
      this.users := users;
      selectedUsers := {};
    }

    function SelectableUsernames(): seq<string> {
      Usernames(SelectableUsers(role, currentUsername, users))
    }

    function SelectAllUsers(): bool
      reads this
    {
      AllSelected(selectedUsers, role, currentUsername, users)
    }

    /** `handleSelectUser`: add or remove one name; the others stay. */
    method HandleSelectUser(username: string, checked: bool)
      modifies this
      ensures checked ==> selectedUsers == old(selectedUsers) + {username}
      ensures !checked ==> selectedUsers == old(selectedUsers) - {username}
    {
      var newSet := selectedUsers;
      if checked {
        newSet := newSet + {username};
      } else {
        newSet := newSet - {username};
      }
      selectedUsers := newSet;
    }

    /** `handleSelectAllUsers`: exactly the selectable names, or nothing. */
    method HandleSelectAllUsers(checked: bool)
      modifies this
      ensures checked ==> selectedUsers == AsSet(SelectableUsernames())
      ensures !checked ==> selectedUsers == {}
      ensures !checked ==> !SelectAllUsers()
      ensures checked && Distinct(SelectableUsernames()) && SelectableUsernames() != [] ==> SelectAllUsers()
    {
      if checked {
        var selectableUsernames := SelectableUsernames();
        selectedUsers := AsSet(selectableUsernames);
        if Distinct(selectableUsernames) {
          SizeOfDistinct(selectableUsernames);
        }
      } else {
        selectedUsers := {};
      }
    }
  }
}
