/**
 * The user record of the user list (src/lib/actions-user.ts:6-12) and the
 * department filter that the user-management screen and the filter
 * builder's bulk add both apply.
 */
module Users {
  import opened Seqs

  /** A user: `dt_account` is the key that selections and deletions go by. */
  datatype User = User(account: string, name: string, email: string, part: string)

  /** The department choice that keeps everybody. */
  const AllParts: string := "all"

  /**
   * `filteredUsers`: with "all" chosen, the whole list; otherwise the users of
   * the chosen department, in list order.
   */
  function FilteredUsers(users: seq<User>, part: string): (r: seq<User>)
    ensures part == AllParts ==> r == users
    ensures part != AllParts ==> forall i :: 0 <= i < |r| ==> r[i].part == part
  {
    if part == AllParts then users else Filter(OfPart(part), users)
  }

  /** `u => u.part === selectedPart` */
  function OfPart(part: string): User -> bool {
    (u: User) => u.part == part
  }

  /** A department other than "all" keeps every occurrence of its users and drops everybody else. */
  lemma FilteredUsersOfPart(users: seq<User>, part: string, u: User)
    requires part != AllParts
    ensures multiset(FilteredUsers(users, part))[u] == if u.part == part then multiset(users)[u] else 0
  {
    FilterCount(OfPart(part), users, u);
  }

  /** `u => partFilter === "all" || u.part === partFilter`, the test of the bulk add. */
  function PartFilter(part: string): User -> bool {
    (u: User) => part == AllParts || u.part == part
  }

  /** The bulk add's one-pass filter selects the same users as `filteredUsers`. */
  lemma {:induction false} PartFilterAgrees(users: seq<User>, part: string)
    ensures Filter(PartFilter(part), users) == FilteredUsers(users, part)
  {
    if users != [] {
      PartFilterAgrees(users[1..], part);
      if part == AllParts {
        assert users == [users[0]] + users[1..];
      }
    }
  }

  /** `users.map(u => u.dt_account)` */
  function Accounts(users: seq<User>): (r: seq<string>)
    ensures |r| == |users| && forall i :: 0 <= i < |users| ==> r[i] == users[i].account
  {
    seq(|users|, i requires 0 <= i < |users| => users[i].account)
  }
}
