/** The city filter at the head of the `filteredUsers` derivation. */
module CityFilter {
  import opened Users

  /** `users.filter(user => user.address.city === city)`. */
  function KeepCity(users: seq<User>, city: string): (r: seq<User>)
    ensures |r| <= |users|
    ensures forall i :: 0 <= i < |r| ==> r[i].city == city
  {
    if users == [] then []
    else (if users[0].city == city then [users[0]] else []) + KeepCity(users[1..], city)
  }

  /** A truthy selected city keeps that city's users; a null, undefined or
      empty selection passes the list through. */
  function FilterByCity(users: seq<User>, selected: Option<string>): (r: seq<User>)
    ensures !Truthy(selected) ==> r == users
    ensures Truthy(selected) ==>
      |r| <= |users| && forall i :: 0 <= i < |r| ==> r[i].city == selected.value
  {
    if Truthy(selected) then KeepCity(users, selected.value) else users
  }

  /** The kept rows are the users of that city, in their original order and
      with their multiplicity: exactly the matching subsequence. */
  lemma {:induction false} KeepCityExact(users: seq<User>, city: string)
    ensures IsSubsequence(KeepCity(users, city), users)
    ensures forall u :: multiset(KeepCity(users, city))[u] ==
                        if u.city == city then multiset(users)[u] else 0
  {
    if users != [] {
      var x, t := users[0], users[1..];
      assert users == [x] + t;
      KeepCityExact(t, city);
      var rest := KeepCity(t, city);
      if x.city == city {
        assert KeepCity(users, city) == [x] + rest;
        assert ([x] + rest)[1..] == rest;
      } else {
        assert KeepCity(users, city) == rest;
        if rest != [] {
          assert rest[0].city == city;
        }
      }
    }
  }

  /** When every user lives in the city, the filter keeps them all. */
  lemma {:induction false} KeepCityAll(users: seq<User>, city: string)
    requires forall i :: 0 <= i < |users| ==> users[i].city == city
    ensures KeepCity(users, city) == users
  {
    if users != [] {
      KeepCityAll(users[1..], city);
      assert [users[0]] + users[1..] == users;
    }
  }

  /** A member of the kept list is a user of that city, and every such user is kept. */
  lemma KeepCityMembers(users: seq<User>, city: string)
    ensures forall u :: u in KeepCity(users, city) <==> u in users && u.city == city
  {
    KeepCityExact(users, city);
    forall u ensures u in KeepCity(users, city) <==> u in users && u.city == city {
      assert u in KeepCity(users, city) <==> multiset(KeepCity(users, city))[u] > 0;
      assert u in users <==> multiset(users)[u] > 0;
    }
  }

  /** Filtering cannot create two rows with the same id. */
  lemma {:induction false} KeepCityUniqueIds(users: seq<User>, city: string)
    requires UniqueIds(users)
    ensures UniqueIds(KeepCity(users, city))
  {
    if users != [] {
      var x, t := users[0], users[1..];
      assert UniqueIds(t) by {
        forall i, j | 0 <= i < j < |t| ensures t[i].id != t[j].id {
          assert t[i] == users[i + 1] && t[j] == users[j + 1];
        }
      }
      KeepCityUniqueIds(t, city);
      var rest := KeepCity(t, city);
      if x.city == city {
        KeepCityMembers(t, city);
        var r := [x] + rest;
        assert KeepCity(users, city) == r;
        forall i, j | 0 <= i < j < |r| ensures r[i].id != r[j].id {
          if i == 0 {
            assert r[j] == rest[j - 1] && rest[j - 1] in t;
            var m :| 0 <= m < |t| && t[m] == rest[j - 1];
            assert users[m + 1] == t[m];
          } else {
            assert r[i] == rest[i - 1] && r[j] == rest[j - 1];
          }
        }
      }
    }
  }

  /** The filter as the derivation applies it. */
  lemma FilterByCitySpec(users: seq<User>, selected: Option<string>)
    ensures !Truthy(selected) ==> FilterByCity(users, selected) == users
    ensures Truthy(selected) ==>
      var r := FilterByCity(users, selected);
      && IsSubsequence(r, users)
      && (forall i :: 0 <= i < |r| ==> r[i].city == selected.value)
      && (forall u :: multiset(r)[u] ==
                      if u.city == selected.value then multiset(users)[u] else 0)
  {
    if Truthy(selected) {
      KeepCityExact(users, selected.value);
    }
  }
}
