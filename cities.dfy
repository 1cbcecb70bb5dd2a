/** The city list offered by the selector:
    `Array.from(new Set(users.map(user => user.address.city)))`. */
module Cities {
  import opened Users

  predicate NoDuplicates<T(==)>(s: seq<T>) {
    forall i, j :: 0 <= i < j < |s| ==> s[i] != s[j]
  }

  /** Inserting the elements of `s` one by one into a set and reading it back
      in insertion order: a repeated element keeps its first position. */
  function Distinct(s: seq<string>): (r: seq<string>)
    ensures forall x :: x in r <==> x in s
    ensures NoDuplicates(r)
    decreases |s|
  {
    if s == [] then []
    else
      var p := Distinct(s[..|s| - 1]);
      if s[|s| - 1] in p then p else p + [s[|s| - 1]]
  }

  /** The position of the first occurrence of `x` in `s`. */
  function FirstIndex(s: seq<string>, x: string): (k: nat)
    requires x in s
    ensures k < |s| && s[k] == x && x !in s[..k]
    decreases |s|
  {
    if x in s[..|s| - 1] then FirstIndex(s[..|s| - 1], x) else |s| - 1
  }

  /** The distinct elements come in the order of their first appearance. */
  lemma {:induction false} DistinctFirstAppearanceOrder(s: seq<string>)
    ensures forall i, j :: 0 <= i < j < |Distinct(s)| ==>
              FirstIndex(s, Distinct(s)[i]) < FirstIndex(s, Distinct(s)[j])
    decreases |s|
  {
    if s != [] {
      var p := s[..|s| - 1];
      var last := s[|s| - 1];
      DistinctFirstAppearanceOrder(p);
      var dp := Distinct(p);
      var r := Distinct(s);
      forall i, j | 0 <= i < j < |r| ensures FirstIndex(s, r[i]) < FirstIndex(s, r[j]) {
        assert r[i] in dp;
        assert FirstIndex(s, r[i]) == FirstIndex(p, r[i]);
        if j < |dp| {
          assert r[i] == dp[i] && r[j] == dp[j];
          assert FirstIndex(s, r[j]) == FirstIndex(p, r[j]);
        } else {
          assert r[j] == last && last !in p;
        }
      }
    }
  }

  /** `users.map(user => user.address.city)`. */
  function CityNames(users: seq<User>): (r: seq<string>)
    ensures |r| == |users|
    ensures forall i :: 0 <= i < |users| ==> r[i] == users[i].city
    ensures forall c :: c in r <==> exists i :: 0 <= i < |users| && users[i].city == c
  {
    seq(|users|, i requires 0 <= i < |users| => users[i].city)
  }

  function UniqueCities(users: seq<User>): (r: seq<string>)
    ensures NoDuplicates(r)
    ensures forall c :: c in r <==> exists i :: 0 <= i < |users| && users[i].city == c
  {
    Distinct(CityNames(users))
  }

  /** The city list names every city of the response once and nothing else,
      in order of first appearance. */
  lemma UniqueCitiesSpec(users: seq<User>)
    ensures var r := UniqueCities(users);
      && NoDuplicates(r)
      && (forall c :: c in r <==> exists i :: 0 <= i < |users| && users[i].city == c)
      && (forall i, j :: 0 <= i < j < |r| ==>
            FirstIndex(CityNames(users), r[i]) < FirstIndex(CityNames(users), r[j]))
  {
    DistinctFirstAppearanceOrder(CityNames(users));
  }
}
