/** The records the user directory works on. */
module Users {

  datatype Option<+T> = None | Some(value: T)

  /** One user of a search response. `birthDate` is a day number standing in
      for the date string (a smaller number is an earlier date), `city` is the
      user's `address.city`, and `isOldest` is the flag the derivation adds:
      `None` while it has never been computed for the row. */
  datatype User = User(
    id: int,
    firstName: string,
    lastName: string,
    birthDate: int,
    city: string,
    isOldest: Option<bool>)

  /** The body of a search response. */
  datatype UserData = UserData(limit: int, skip: int, total: int, users: seq<User>)

  /** JavaScript truthiness of a `string | null | undefined` value: present and not empty. */
  predicate Truthy(s: Option<string>) {
    s.Some? && s.value != ""
  }

  /** No two rows share an id (the server's ids are unique). */
  predicate UniqueIds(rows: seq<User>) {
    forall i, j :: 0 <= i < j < |rows| ==> rows[i].id != rows[j].id
  }

  /** `a` can be obtained from `b` by deleting elements: order is kept. */
  predicate IsSubsequence<T(==)>(a: seq<T>, b: seq<T>)
    decreases |b|
  {
    if a == [] then true
    else if b == [] then false
    else if a[0] == b[0] then IsSubsequence(a[1..], b[1..])
    else IsSubsequence(a, b[1..])
  }
}
