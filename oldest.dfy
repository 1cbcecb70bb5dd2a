/** Oldest-per-city tagging: a fold to the earliest-born user of each city,
    then a map that flags each row against that winner. */
module Oldest {
  import opened Users

  /** One step of the reduce: a user replaces the holder of its city when the
      city has none yet or the user was born strictly earlier, so on a tie the
      holder (the earlier row) stays. */
  function Step(acc: map<string, User>, user: User): (r: map<string, User>)
    ensures r.Keys == acc.Keys + {user.city}
    ensures forall c :: c in acc && c != user.city ==> r[c] == acc[c]
    ensures r[user.city] == user || (user.city in acc && r[user.city] == acc[user.city])
    ensures r[user.city].birthDate <= user.birthDate
    ensures user.city in acc ==> r[user.city].birthDate <= acc[user.city].birthDate
    ensures user.city in acc && acc[user.city].birthDate <= user.birthDate ==> r == acc
  {
    if user.city !in acc || user.birthDate < acc[user.city].birthDate
    then acc[user.city := user]
    else acc
  }

  /** The accumulator after reducing `rows` from left to right, starting empty. */
  function OldestByCity(rows: seq<User>): (r: map<string, User>)
    ensures forall c :: c in r ==> r[c].city == c
    ensures |rows| > 0 ==> rows[|rows| - 1].city in r
    decreases |rows|
  {
    if rows == [] then map[]
    else Step(OldestByCity(rows[..|rows| - 1]), rows[|rows| - 1])
  }

  /** Row `k` has the minimum birth date of its city and every earlier row of
      that city was born strictly later: the first of its city's minima. */
  predicate FirstOldest(rows: seq<User>, k: int) {
    && 0 <= k < |rows|
    && forall j :: 0 <= j < |rows| && rows[j].city == rows[k].city ==>
         if j < k then rows[k].birthDate < rows[j].birthDate
         else rows[k].birthDate <= rows[j].birthDate
  }

  /** The reduce that builds the `oldestUsers` dictionary, updating the
      accumulator one user at a time. */
  method OldestPerCity(rows: seq<User>) returns (acc: map<string, User>)
    ensures acc == OldestByCity(rows)
  {
    acc := map[];
    var i := 0;
    while i < |rows|
      invariant 0 <= i <= |rows|
      invariant acc == OldestByCity(rows[..i])
    {
      ghost var next := rows[..i + 1];
      assert next[..i] == rows[..i] && next[i] == rows[i];
      assert OldestByCity(next) == Step(OldestByCity(rows[..i]), rows[i]);
      acc := Step(acc, rows[i]);
      i := i + 1;
    }
    assert rows[..i] == rows;
  }

  /** The accumulator holds exactly the cities that occur in `rows`. */
  lemma {:induction false} OldestKeys(rows: seq<User>)
    ensures forall c :: c in OldestByCity(rows) <==> exists j :: 0 <= j < |rows| && rows[j].city == c
    decreases |rows|
  {
    if rows != [] {
      var n := |rows|;
      var p, u := rows[..n - 1], rows[n - 1];
      OldestKeys(p);
      var acc := OldestByCity(p);
      assert OldestByCity(rows) == Step(acc, u);
      assert OldestByCity(rows).Keys == acc.Keys + {u.city};
      forall c ensures c in OldestByCity(rows) <==> exists j :: 0 <= j < n && rows[j].city == c {
        if c == u.city {
          assert rows[n - 1].city == c;
        } else {
          if c in acc {
            var j :| 0 <= j < |p| && p[j].city == c;
            assert rows[j] == p[j];
          }
          if exists j :: 0 <= j < n && rows[j].city == c {
            var j :| 0 <= j < n && rows[j].city == c;
            assert p[j] == rows[j];
          }
        }
      }
    }
  }

  /** Each city's holder in the accumulator is the first of that city's
      earliest-born rows. */
  lemma {:induction false} OldestHolder(rows: seq<User>, c: string)
    requires c in OldestByCity(rows)
    ensures exists k :: FirstOldest(rows, k) && rows[k].city == c && OldestByCity(rows)[c] == rows[k]
    decreases |rows|
  {
    var n := |rows|;
    var p, u := rows[..n - 1], rows[n - 1];
    var acc := OldestByCity(p);
    assert OldestByCity(rows) == Step(acc, u);
    if c in acc {
      OldestHolder(p, c);
      var k :| FirstOldest(p, k) && p[k].city == c && acc[c] == p[k];
      if c == u.city && u.birthDate < acc[c].birthDate {
        NewFirstOldest(rows, k);
      } else {
        ExtendFirstOldest(rows, k);
      }
    } else {
      OldestKeys(p);
      assert c == u.city;
      forall j | 0 <= j < n - 1 ensures rows[j].city != c {
        assert p[j] == rows[j];
      }
      assert FirstOldest(rows, n - 1);
    }
  }

  /** An appended row born strictly earlier than the first-oldest row of its
      city in the prefix is the first-oldest row of that city. */
  lemma NewFirstOldest(rows: seq<User>, k: int)
    requires |rows| > 0
    requires FirstOldest(rows[..|rows| - 1], k)
    requires var u := rows[|rows| - 1];
      u.city == rows[k].city && u.birthDate < rows[k].birthDate
    ensures FirstOldest(rows, |rows| - 1)
  {
    var p := rows[..|rows| - 1];
    forall j | 0 <= j < |rows| - 1 ensures rows[j] == p[j] { }
  }

  /** A first-oldest row of a prefix stays first-oldest when the appended row
      belongs to another city or is not born earlier. */
  lemma ExtendFirstOldest(rows: seq<User>, k: int)
    requires |rows| > 0
    requires FirstOldest(rows[..|rows| - 1], k)
    requires var u := rows[|rows| - 1];
      u.city != rows[k].city || rows[k].birthDate <= u.birthDate
    ensures FirstOldest(rows, k)
  {
    var p := rows[..|rows| - 1];
    forall j | 0 <= j < |rows| - 1 ensures rows[j] == p[j] { }
  }

  /** Two first-oldest rows of the same city are the same row. */
  lemma FirstOldestUnique(rows: seq<User>, k1: int, k2: int)
    requires FirstOldest(rows, k1) && FirstOldest(rows, k2)
    requires rows[k1].city == rows[k2].city
    ensures k1 == k2
  {
  }

  /** `rows.map(user => ({...user, isOldest: oldest[user.address.city]?.id === user.id}))`. */
  function TagOldest(rows: seq<User>, oldest: map<string, User>): (r: seq<User>)
    ensures |r| == |rows|
    ensures forall i :: 0 <= i < |r| ==> r[i] == rows[i].(isOldest := r[i].isOldest) && r[i].isOldest.Some?
  {
    seq(|rows|, i requires 0 <= i < |rows| =>
      rows[i].(isOldest := Some(rows[i].city in oldest && oldest[rows[i].city].id == rows[i].id)))
  }

  /** Tagging a list against its own reduce keeps its length, order and every
      field but `isOldest`, and (ids being unique) flags a row exactly when it
      is the first earliest-born row of its city. */
  lemma TagOldestExact(rows: seq<User>)
    requires UniqueIds(rows)
    ensures var r := TagOldest(rows, OldestByCity(rows));
      && |r| == |rows|
      && forall i :: 0 <= i < |rows| ==> r[i] == rows[i].(isOldest := Some(FirstOldest(rows, i)))
  {
    var oldest := OldestByCity(rows);
    var r := TagOldest(rows, oldest);
    OldestKeys(rows);
    forall i | 0 <= i < |rows| ensures r[i] == rows[i].(isOldest := Some(FirstOldest(rows, i))) {
      var c := rows[i].city;
      assert c in oldest;
      OldestHolder(rows, c);
      var k :| FirstOldest(rows, k) && rows[k].city == c && oldest[c] == rows[k];
      if FirstOldest(rows, i) {
        FirstOldestUnique(rows, i, k);
      } else {
        assert i != k;
        assert rows[i].id != rows[k].id by {
          if i < k { assert rows[i].id != rows[k].id; } else { assert rows[k].id != rows[i].id; }
        }
      }
    }
  }

  /** Every city of `rows` has exactly one first-oldest row. */
  lemma OneFirstOldestPerCity(rows: seq<User>, i: int)
    requires 0 <= i < |rows|
    ensures exists k :: FirstOldest(rows, k) && rows[k].city == rows[i].city
    ensures forall k :: FirstOldest(rows, k) && rows[k].city == rows[i].city ==>
              forall m :: FirstOldest(rows, m) && rows[m].city == rows[i].city ==> k == m
  {
    OldestKeys(rows);
    assert rows[i].city in OldestByCity(rows);
    OldestHolder(rows, rows[i].city);
    forall k, m | FirstOldest(rows, k) && rows[k].city == rows[i].city &&
                  FirstOldest(rows, m) && rows[m].city == rows[i].city
      ensures k == m
    {
      FirstOldestUnique(rows, k, m);
    }
  }
}
