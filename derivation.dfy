/** The rows and the pagination total the component renders, derived from
    the fetched users and the filter state. */
module Derivation {
  import opened Users
  import opened CityFilter
  import opened Oldest
  import opened Pagination

  /** `filteredUsers`: the city filter, then, with highlighting on, the
      oldest-per-city tagging of what the filter kept. */
  function FilteredUsers(users: seq<User>, selected: Option<string>, highlight: bool): (r: seq<User>)
    ensures var kept := FilterByCity(users, selected);
      && |r| == |kept|
      && (forall i :: 0 <= i < |r| ==> r[i] == kept[i].(isOldest := r[i].isOldest))
      && (highlight ==> forall i :: 0 <= i < |r| ==> r[i].isOldest.Some?)
      && (!highlight ==> r == kept)
  {
    var kept := FilterByCity(users, selected);
    if highlight then TagOldest(kept, OldestByCity(kept)) else kept
  }

  /** The same derivation as the component runs it, with the reduce as a loop. */
  method ComputeFilteredUsers(users: seq<User>, selected: Option<string>, highlight: bool)
    returns (rows: seq<User>)
    ensures rows == FilteredUsers(users, selected, highlight)
  {
    rows := FilterByCity(users, selected);
    if highlight {
      var oldest := OldestPerCity(rows);
      rows := TagOldest(rows, oldest);
    }
  }

  /** `dataSource` of the table: the page slice with a city selected, the whole
      filtered list otherwise. */
  function TableRows(filtered: seq<User>, currentPage: int, selected: Option<string>): (r: seq<User>)
    ensures Truthy(selected) ==> |r| <= PageSize && forall i :: 0 <= i < |r| ==> r[i] in filtered
    ensures !Truthy(selected) ==> r == filtered
  {
    if Truthy(selected) then PageSlice(filtered, currentPage) else filtered
  }

  /** `total` of the pagination control. */
  function PaginationTotal(filtered: seq<User>, totalUsers: int, selected: Option<string>): (t: int)
    ensures Truthy(selected) ==> t == |filtered|
    ensures !Truthy(selected) ==> t == totalUsers
  {
    if Truthy(selected) then |filtered| else totalUsers
  }

  /** With highlighting on (and unique ids), the derivation keeps the filtered
      rows in order, changes nothing but `isOldest`, and flags a row exactly
      when it is the first earliest-born row of its city. */
  lemma HighlightFlagsFirstOldest(users: seq<User>, selected: Option<string>)
    requires UniqueIds(users)
    ensures var kept := FilterByCity(users, selected);
      var r := FilteredUsers(users, selected, true);
      && |r| == |kept|
      && forall i :: 0 <= i < |r| ==> r[i] == kept[i].(isOldest := Some(FirstOldest(kept, i)))
  {
    var kept := FilterByCity(users, selected);
    if Truthy(selected) {
      KeepCityUniqueIds(users, selected.value);
    }
    TagOldestExact(kept);
  }

  /** With highlighting on, every city of the filtered list has exactly one
      flagged row; its birth date is the minimum of the city, and every
      earlier row of the city was born strictly later. */
  lemma ExactlyOneFlaggedPerCity(users: seq<User>, selected: Option<string>, i: int)
    requires UniqueIds(users)
    requires 0 <= i < |FilteredUsers(users, selected, true)|
    ensures var r := FilteredUsers(users, selected, true);
      && (exists k :: 0 <= k < |r| && r[k].city == r[i].city && r[k].isOldest == Some(true))
      && (forall k, m ::
            (0 <= k < |r| && 0 <= m < |r| &&
             r[k].city == r[i].city && r[k].isOldest == Some(true) &&
             r[m].city == r[i].city && r[m].isOldest == Some(true)) ==> k == m)
      && (forall k, j ::
            (0 <= k < |r| && 0 <= j < |r| && r[k].isOldest == Some(true) && r[j].city == r[k].city) ==>
            r[k].birthDate <= r[j].birthDate && (j < k ==> r[k].birthDate < r[j].birthDate))
  {
    var kept := FilterByCity(users, selected);
    var r := FilteredUsers(users, selected, true);
    HighlightFlagsFirstOldest(users, selected);
    OneFirstOldestPerCity(kept, i);
    var k :| FirstOldest(kept, k) && kept[k].city == kept[i].city;
    assert r[k].city == r[i].city && r[k].isOldest == Some(true);
    forall k, m | 0 <= k < |r| && 0 <= m < |r| &&
            r[k].city == r[i].city && r[k].isOldest == Some(true) &&
            r[m].city == r[i].city && r[m].isOldest == Some(true)
      ensures k == m
    {
      FirstOldestUnique(kept, k, m);
    }
    forall k, j | 0 <= k < |r| && 0 <= j < |r| && r[k].isOldest == Some(true) && r[j].city == r[k].city
      ensures r[k].birthDate <= r[j].birthDate && (j < k ==> r[k].birthDate < r[j].birthDate)
    {
      assert FirstOldest(kept, k);
      assert kept[j].city == kept[k].city;
    }
  }

  /** With highlighting off, the derivation is the city filter alone and adds
      no flag: rows that arrive unflagged stay unflagged. */
  lemma HighlightOffAddsNoFlag(users: seq<User>, selected: Option<string>)
    requires forall i :: 0 <= i < |users| ==> users[i].isOldest == None
    ensures FilteredUsers(users, selected, false) == FilterByCity(users, selected)
    ensures forall i :: 0 <= i < |FilteredUsers(users, selected, false)| ==>
              FilteredUsers(users, selected, false)[i].isOldest == None
  {
    var r := FilteredUsers(users, selected, false);
    if Truthy(selected) {
      KeepCityMembers(users, selected.value);
      forall i | 0 <= i < |r| ensures r[i].isOldest == None {
        assert r[i] in users;
      }
    }
  }

  /** With a truthy city selected, the table's data source holds at most ten
      rows, all of that city, and the pagination total counts the filtered
      list; from page 1 on the rows are the page's window of the filtered list. */
  lemma DisplayWithCity(users: seq<User>, selected: Option<string>, highlight: bool,
                        currentPage: int, totalUsers: int)
    requires Truthy(selected)
    ensures var filtered := FilteredUsers(users, selected, highlight);
      var rows := TableRows(filtered, currentPage, selected);
      && |rows| <= PageSize
      && (forall i :: 0 <= i < |rows| ==> rows[i].city == selected.value)
      && PaginationTotal(filtered, totalUsers, selected) == |filtered|
      && (currentPage >= 1 ==>
            rows == filtered[Min((currentPage - 1) * PageSize, |filtered|)..Min(currentPage * PageSize, |filtered|)])
  {
    var filtered := FilteredUsers(users, selected, highlight);
    var rows := TableRows(filtered, currentPage, selected);
    var kept := FilterByCity(users, selected);
    assert forall i :: 0 <= i < |kept| ==> kept[i].city == selected.value;
    assert forall i :: 0 <= i < |filtered| ==> filtered[i].city == selected.value;
    var lo := ClampIndex((currentPage - 1) * PageSize, |filtered|);
    var hi := ClampIndex((currentPage - 1) * PageSize + PageSize, |filtered|);
    forall i | 0 <= i < |rows| ensures rows[i].city == selected.value {
      assert rows[i] == filtered[lo + i];
    }
    if currentPage >= 1 {
      PageSliceWindow(filtered, currentPage);
    }
  }

  /** Without a truthy city, the table's data source is the whole filtered
      list, which is every fetched user (so it can exceed ten rows), and the
      pagination total is the server's total. */
  lemma DisplayWithoutCity(users: seq<User>, selected: Option<string>, highlight: bool,
                           currentPage: int, totalUsers: int)
    requires !Truthy(selected)
    ensures var filtered := FilteredUsers(users, selected, highlight);
      && TableRows(filtered, currentPage, selected) == filtered
      && |filtered| == |users|
      && (forall i :: 0 <= i < |users| ==> filtered[i].id == users[i].id && filtered[i].city == users[i].city)
      && PaginationTotal(filtered, totalUsers, selected) == totalUsers
  {
  }

  /** Two users of Paris born on 1990-01-01 and 1985-05-05 (days 7305 and 5603
      counted from 1970-01-01): with highlighting on only the second is flagged. */
  lemma ParisScenario()
    ensures var a := User(1, "Ana", "Roy", 7305, "Paris", None);
      var b := User(2, "Ben", "Lee", 5603, "Paris", None);
      FilteredUsers([a, b], None, true) == [a.(isOldest := Some(false)), b.(isOldest := Some(true))]
  {
    var a := User(1, "Ana", "Roy", 7305, "Paris", None);
    var b := User(2, "Ben", "Lee", 5603, "Paris", None);
    var rows := [a, b];
    assert rows[..1] == [a];
    assert OldestByCity([a]) == map["Paris" := a];
    assert OldestByCity(rows) == map["Paris" := b];
  }
}
