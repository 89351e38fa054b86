/**
 * The user-management screen (src/components/UserManagement.tsx): the list
 * of users and the accounts ticked in it, the department list and filter
 * derived from them, the rows kept from an imported sheet, and the handlers
 * that replace the two lists.
 */
module UserManagement {
  import opened Wrappers
  import opened Seqs
  import opened Text
  import opened Users

  // ---------------------------------------------------------------------
  // Derived values (lines 75-80)

  /** `users.map(u => u.part)` */
  function PartsOf(users: seq<User>): (r: seq<string>)
    ensures |r| == |users| && forall i :: 0 <= i < |users| ==> r[i] == users[i].part
  {
    seq(|users|, i requires 0 <= i < |users| => users[i].part)
  }

  /**
   * `parts`: every department that some user belongs to, once each, the
   * empty one left out, in the order `sort()` gives.
   */
  function Parts(users: seq<User>): (r: seq<string>)
    ensures Sorted(r) && Distinct(r)
    ensures forall x :: x in r <==> x != "" && x in PartsOf(users)
  {
    var d := Dedup(PartsOf(users));
    var kept := Filter(NonEmpty(), d);
    FilterDistinct(NonEmpty(), d);
    SortedDistinct(kept);
    assert forall x :: x in Sort(kept) <==> x in kept by {
      forall x
        ensures x in Sort(kept) <==> x in kept
      {
        assert x in Sort(kept) <==> x in multiset(Sort(kept));
      }
    }
    DedupMembers(PartsOf(users));
    Sort(kept)
  }

  // ---------------------------------------------------------------------
  // Import rows (lines 95-100)

  /** A row of the sheet: the text of each cell, by column header. */
  type Row = map<string, string>

  /** `String(row[k1] || row[k2] || ... || "")`: the first of the columns that holds a non-empty cell. */
  function Cell(row: Row, keys: seq<string>): (r: string)
    ensures r != "" <==> exists i :: 0 <= i < |keys| && keys[i] in row && row[keys[i]] != ""
    ensures r != "" ==> exists i :: 0 <= i < |keys| && keys[i] in row && row[keys[i]] == r
    ensures r != "" ==> exists i :: 0 <= i < |keys| && FirstFilled(row, keys, i) && row[keys[i]] == r
  {
    if keys == [] then ""
    else if Filled(row, keys[0]) then row[keys[0]]
    else
      var r := Cell(row, keys[1..]);
      assert forall i :: 1 <= i < |keys| ==> keys[i] == keys[1..][i - 1];
      assert r != "" ==> exists i :: 0 <= i < |keys| && FirstFilled(row, keys, i) && row[keys[i]] == r by {
        if r != "" {
          var j :| 0 <= j < |keys[1..]| && FirstFilled(row, keys[1..], j) && row[keys[1..][j]] == r;
          assert keys[j + 1] == keys[1..][j];
          assert FirstFilled(row, keys, j + 1);
        }
      }
      r
  }

  /** `row[k]` is truthy: the column is there and its text is not empty. */
  predicate Filled(row: Row, k: string) {
    k in row && row[k] != ""
  }

  /** Column `keys[i]` is the first of `keys` that is filled. */
  predicate FirstFilled(row: Row, keys: seq<string>, i: nat) {
    i < |keys| && Filled(row, keys[i]) && forall j :: 0 <= j < i ==> !Filled(row, keys[j])
  }

  /** The headers each field is read from, in the order they are tried. */
  const AccountKeys: seq<string> := ["DT계정", "dt_account", "ID"]
  const NameKeys: seq<string> := ["성명", "name", "이름"]
  const EmailKeys: seq<string> := ["이메일", "email"]
  const PartKeys: seq<string> := ["부서/파트", "부서", "파트", "part", "소속"]

  function RowUser(row: Row): User {
    User(Cell(row, AccountKeys), Cell(row, NameKeys), Cell(row, EmailKeys), Cell(row, PartKeys))
  }

  /** `u => u.dt_account && u.name` */
  function Importable(): User -> bool {
    (u: User) => u.account != "" && u.name != ""
  }

  /** `importedUsers`: the users read from the rows, keeping those with an account and a name. */
  function ImportedUsers(rows: seq<Row>): (r: seq<User>)
    ensures |r| <= |rows|
    ensures forall u :: u in r ==> exists i :: 0 <= i < |rows| && RowUser(rows[i]) == u
  {
    var us := seq(|rows|, i requires 0 <= i < |rows| => RowUser(rows[i]));
    var r := Filter(Importable(), us);
    assert forall u :: u in r ==> exists i :: 0 <= i < |rows| && RowUser(rows[i]) == u by {
      forall u | u in r
        ensures exists i :: 0 <= i < |rows| && RowUser(rows[i]) == u
      {
        var k :| 0 <= k < |r| && r[k] == u;
        var j :| 0 <= j < |us| && us[j] == u;
        assert RowUser(rows[j]) == u;
      }
    }
    r
  }

  /** Each row's user occurs as often as the rows give it when it has an account and a name, and never otherwise. */
  lemma ImportedUsersCount(rows: seq<Row>, u: User)
    ensures multiset(ImportedUsers(rows))[u] ==
      if u.account != "" && u.name != "" then multiset(seq(|rows|, i requires 0 <= i < |rows| => RowUser(rows[i])))[u] else 0
  {
    FilterCount(Importable(), seq(|rows|, i requires 0 <= i < |rows| => RowUser(rows[i])), u);
  }

  /** One more row adds its user at the end, when it has an account and a name, so the rows' order is kept. */
  lemma ImportedUsersSnoc(rows: seq<Row>, row: Row)
    ensures ImportedUsers(rows + [row]) ==
      ImportedUsers(rows) + (if RowUser(row).account != "" && RowUser(row).name != "" then [RowUser(row)] else [])
  {
    var rs := rows + [row];
    var us := seq(|rows|, i requires 0 <= i < |rows| => RowUser(rows[i]));
    var vs := seq(|rs|, i requires 0 <= i < |rs| => RowUser(rs[i]));
    assert vs == us + [RowUser(row)];
    FilterAppend(Importable(), us, [RowUser(row)]);
    assert [RowUser(row)][1..] == [];
  }

  /** A row gives a user exactly when some account column and some name column have text. */
  lemma ImportedUsersKept(rows: seq<Row>, i: nat)
    requires i < |rows|
    ensures RowUser(rows[i]) in ImportedUsers(rows) <==>
      (exists a :: 0 <= a < |AccountKeys| && AccountKeys[a] in rows[i] && rows[i][AccountKeys[a]] != "")
      && (exists n :: 0 <= n < |NameKeys| && NameKeys[n] in rows[i] && rows[i][NameKeys[n]] != "")
  {
    var us := seq(|rows|, i requires 0 <= i < |rows| => RowUser(rows[i]));
    assert us[i] == RowUser(rows[i]);
  }

  /** Every imported user has an account and a name. */
  lemma ImportedUsersValid(rows: seq<Row>)
    ensures forall u :: u in ImportedUsers(rows) ==> u.account != "" && u.name != ""
  {
    var r := ImportedUsers(rows);
    forall u | u in r
      ensures u.account != "" && u.name != ""
    {
      var i :| 0 <= i < |r| && r[i] == u;
      assert Importable()(r[i]);
    }
  }

  /**
   * The rest of `handleImport` once the sheet is read: nothing is sent when
   * no row gives a user or the import is not confirmed; otherwise the
   * imported users go to the server and the page reloads.
   */
  function ImportRequest(rows: seq<Row>, confirmed: bool): (r: Option<seq<User>>)
    ensures r.Some? <==> confirmed && ImportedUsers(rows) != []
    ensures r.Some? ==> r.value == ImportedUsers(rows)
  {
    var imported := ImportedUsers(rows);
    if imported == [] || !confirmed then None else Some(imported)
  }

  // ---------------------------------------------------------------------
  // New list values (lines 123-178)

  /** `users.map(u => u.dt_account === v.dt_account ? v : u)` */
  function Replace(users: seq<User>, v: User): (r: seq<User>)
    ensures |r| == |users|
    ensures forall i :: 0 <= i < |users| ==> r[i] == if users[i].account == v.account then v else users[i]
  {
    seq(|users|, i requires 0 <= i < |users| => if users[i].account == v.account then v else users[i])
  }

  /** Editing a user whose account is in the list puts the new values in its place and keeps all others. */
  lemma ReplaceInPlace(users: seq<User>, v: User, i: nat)
    requires i < |users| && users[i].account == v.account
    requires Distinct(Accounts(users))
    ensures Replace(users, v)[i] == v
    ensures forall j :: 0 <= j < |users| && j != i ==> Replace(users, v)[j] == users[j]
  {
    forall j | 0 <= j < |users| && j != i
      ensures Replace(users, v)[j] == users[j]
    {
      assert Accounts(users)[i] != Accounts(users)[j];
    }
  }

  /**
   * Replacing with an account nobody has leaves the list as it was. The form
   * does not let an edit change the account, so an edit always submits the
   * edited user's own account; this case is reached only when that user has
   * meanwhile left the list.
   */
  lemma ReplaceMissing(users: seq<User>, v: User)
    requires v.account !in Accounts(users)
    ensures Replace(users, v) == users
  {
    forall i | 0 <= i < |users|
      ensures Replace(users, v)[i] == users[i]
    {
      assert Accounts(users)[i] == users[i].account;
    }
  }

  /** `x => x !== id` */
  function Except(id: string): string -> bool {
    (x: string) => x != id
  }

  /** `u => u.dt_account !== account` */
  function NotAccount(account: string): User -> bool {
    (u: User) => u.account != account
  }

  /** `u => !ids.includes(u.dt_account)` */
  function NotListed(ids: seq<string>): User -> bool {
    (u: User) => u.account !in ids
  }

  /** The new selection of `handleToggleOne`: the id goes if it is there and is appended otherwise. */
  function Toggle(ids: seq<string>, id: string): (r: seq<string>)
    ensures id in ids ==> id !in r && forall x :: x != id ==> (x in r <==> x in ids)
    ensures id !in ids ==> r == ids + [id]
  {
    if id in ids then Filter(Except(id), ids) else ids + [id]
  }

  /** Toggling the same id twice gives back the same accounts. */
  lemma ToggleTwice(ids: seq<string>, id: string)
    ensures forall x :: x in Toggle(Toggle(ids, id), id) <==> x in ids
  {
  }

  /** On a selection without repetitions, toggling an absent id twice gives back exactly the selection. */
  lemma ToggleTwiceAbsent(ids: seq<string>, id: string)
    requires id !in ids
    ensures Toggle(Toggle(ids, id), id) == ids
  {
    var t := ids + [id];
    FilterAll(Except(id), ids);
    FilterAppend(Except(id), ids, [id]);
    assert Filter(Except(id), [id]) == [];
  }

  /** The new selection of `handleToggleAll`. */
  function ToggleAll(ids: seq<string>, filtered: seq<User>): (r: seq<string>)
    ensures |ids| == |filtered| ==> r == []
    ensures |ids| != |filtered| ==> |r| == |filtered| && forall i :: 0 <= i < |r| ==> r[i] == filtered[i].account
  {
    if |ids| == |filtered| then [] else Accounts(filtered)
  }

  /** Toggling all twice from an empty selection of a non-empty view comes back to empty. */
  lemma ToggleAllTwice(filtered: seq<User>)
    requires filtered != []
    ensures ToggleAll([], filtered) == Accounts(filtered)
    ensures ToggleAll(ToggleAll([], filtered), filtered) == []
  {
  }

  /**
   * The screen's state: the list of users, the accounts ticked, the chosen
   * department, and the user being edited in the form (if any).
   */
  class UserList {
    var users: seq<User>
    var selectedIds: seq<string>
    var selectedPart: string
    var editing: Option<User>
    var dialogOpen: bool

    constructor(initialUsers: seq<User>)
      ensures users == initialUsers && selectedIds == [] && selectedPart == AllParts
      ensures editing.None? && !dialogOpen
    {
      users := initialUsers;
      selectedIds := [];
      selectedPart := AllParts;
      editing := None;
      dialogOpen := false;
    }

    /** `filteredUsers` for the current state. */
    function Filtered(): seq<User>
      reads this
    {
      FilteredUsers(users, selectedPart)
    }

    /** `parts` for the current state. */
    function DepartmentList(): seq<string>
      reads this
    {
      Parts(users)
    }

    /** The department select: `setSelectedPart`. */
    method SelectPart(part: string)
      modifies this
      ensures selectedPart == part
      ensures users == old(users) && selectedIds == old(selectedIds)
      ensures editing == old(editing) && dialogOpen == old(dialogOpen)
    {
      selectedPart := part;
    }

    /** `handleEdit`: the form opens on this user. */
    method Edit(user: User)
      modifies this
      ensures editing == Some(user) && dialogOpen
      ensures users == old(users) && selectedIds == old(selectedIds) && selectedPart == old(selectedPart)
    {
      editing := Some(user);
      dialogOpen := true;
    }

    /** The dialog's `onOpenChange`: closing it also ends the edit. */
    method OpenChange(open: bool)
      modifies this
      ensures dialogOpen == open
      ensures editing == if open then old(editing) else None
      ensures users == old(users) && selectedIds == old(selectedIds) && selectedPart == old(selectedPart)
    {
      dialogOpen := open;
      if !open {
        editing := None;
      }
    }

    /**
     * `onSubmit` with validated form values: they go to the server
     * (`saved`). When the call succeeds they replace the user with the same
     * account when editing, or are appended otherwise; then the dialog
     * closes and the edit ends. When `addUser` throws (`succeeded` is false)
     * the handler stops before any of that: the list, the edit and the open
     * dialog stay as they were.
     */
    method Submit(values: User, succeeded: bool) returns (saved: User)
      requires values.account != "" && values.name != "" && values.part != ""
      modifies this
      ensures saved == values
      ensures succeeded && old(editing).Some? ==> users == Replace(old(users), values)
      ensures succeeded && old(editing).None? ==> users == old(users) + [values]
      ensures succeeded ==> editing.None? && !dialogOpen
      ensures !succeeded ==> users == old(users) && editing == old(editing) && dialogOpen == old(dialogOpen)
      ensures selectedIds == old(selectedIds) && selectedPart == old(selectedPart)
    {
      saved := values;
      if !succeeded {
        return;
      }
      if editing.Some? {
        users := Replace(users, values);
      } else {
        users := users + [values];
      }
      dialogOpen := false;
      editing := None;
    }

    /**
     * `handleDelete`: once confirmed, the account is sent to the server
     * (`deleted`); when the call succeeds the account goes from the list and
     * from the selection, and when `deleteUser` throws both stay as they were.
     */
    method Delete(account: string, confirmed: bool, succeeded: bool) returns (deleted: Option<string>)
      modifies this
      ensures confirmed ==> deleted == Some(account)
      ensures confirmed && succeeded ==>
        users == Filter(NotAccount(account), old(users)) && selectedIds == Filter(Except(account), old(selectedIds))
      ensures !confirmed ==> deleted.None?
      ensures !(confirmed && succeeded) ==> users == old(users) && selectedIds == old(selectedIds)
      ensures selectedPart == old(selectedPart)
      ensures editing == old(editing) && dialogOpen == old(dialogOpen)
    {
      deleted := None;
      if confirmed {
        deleted := Some(account);
        if succeeded {
          users := Filter(NotAccount(account), users);
          selectedIds := Filter(Except(account), selectedIds);
        }
      }
    }

    /** `handleToggleAll` */
    method ToggleAllUsers()
      modifies this
      ensures selectedIds == ToggleAll(old(selectedIds), old(Filtered()))
      ensures users == old(users) && selectedPart == old(selectedPart)
      ensures editing == old(editing) && dialogOpen == old(dialogOpen)
    {
      selectedIds := ToggleAll(selectedIds, Filtered());
    }

    /** `handleToggleOne` */
    method ToggleOne(id: string)
      modifies this
      ensures selectedIds == Toggle(old(selectedIds), id)
      ensures users == old(users) && selectedPart == old(selectedPart)
      ensures editing == old(editing) && dialogOpen == old(dialogOpen)
    {
      if id in selectedIds {
        selectedIds := Filter(Except(id), selectedIds);
      } else {
        selectedIds := selectedIds + [id];
      }
    }

    /**
     * `handleDeleteSelected`: nothing happens without a selection; once
     * confirmed, the selected accounts go to the server (`deleted`). When
     * every deletion succeeds their users leave the list and the selection is
     * emptied; when `deleteMultipleUsers` throws both stay as they were.
     */
    method DeleteSelected(confirmed: bool, succeeded: bool) returns (deleted: Option<seq<string>>)
      modifies this
      ensures (old(selectedIds) == [] || !confirmed) ==> deleted.None?
      ensures old(selectedIds) != [] && confirmed ==> deleted == Some(old(selectedIds))
      ensures old(selectedIds) != [] && confirmed && succeeded ==>
        users == Filter(NotListed(old(selectedIds)), old(users)) && selectedIds == []
      ensures !(old(selectedIds) != [] && confirmed && succeeded) ==> users == old(users) && selectedIds == old(selectedIds)
      ensures selectedPart == old(selectedPart)
      ensures editing == old(editing) && dialogOpen == old(dialogOpen)
    {
      deleted := None;
      if selectedIds == [] {
        return;
      }
      if confirmed {
        deleted := Some(selectedIds);
        if succeeded {
          users := Filter(NotListed(selectedIds), users);
          selectedIds := [];
        }
      }
    }

    /**
     * `handleDeleteAll`: once confirmed, the request goes to the server
     * (`requested`); when it succeeds both lists are emptied, and when
     * `deleteAllUsers` throws both stay as they were.
     */
    method DeleteAll(confirmed: bool, succeeded: bool) returns (requested: bool)
      modifies this
      ensures requested == confirmed
      ensures confirmed && succeeded ==> users == [] && selectedIds == []
      ensures !(confirmed && succeeded) ==> users == old(users) && selectedIds == old(selectedIds)
      ensures selectedPart == old(selectedPart)
      ensures editing == old(editing) && dialogOpen == old(dialogOpen)
    {
      requested := confirmed;
      if confirmed && succeeded {
        users := [];
        selectedIds := [];
      }
    }
  }

  /** Deleting the selection keeps exactly the users whose account was not selected, in order. */
  lemma DeleteSelectedKeeps(users: seq<User>, ids: seq<string>, u: User)
    ensures multiset(Filter(NotListed(ids), users))[u] == if u.account in ids then 0 else multiset(users)[u]
  {
    FilterCount(NotListed(ids), users, u);
  }

  /** Deleting one account keeps every other user, as often as before. */
  lemma DeleteKeeps(users: seq<User>, account: string, u: User)
    ensures multiset(Filter(NotAccount(account), users))[u] == if u.account == account then 0 else multiset(users)[u]
  {
    FilterCount(NotAccount(account), users, u);
  }
}
