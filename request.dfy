/** The search request that `fetchUsers` issues. */
module Request {
  import opened Users

  const Endpoint := "https://dummyjson.com/users/search"

  function DigitChar(d: int): (c: char)
    requires 0 <= d < 10
    ensures '0' <= c <= '9'
    ensures c as int - '0' as int == d
  {
    ('0' as int + d) as char
  }

  /** Decimal digits of a natural number, most significant first, no leading zeros. */
  function NatDigits(n: nat): (s: string)
    ensures |s| >= 1
    ensures forall i :: 0 <= i < |s| ==> '0' <= s[i] <= '9'
    ensures s[0] == '0' <==> n == 0
    decreases n
  {
    if n < 10 then [DigitChar(n)] else NatDigits(n / 10) + [DigitChar(n % 10)]
  }

  /** How a template literal renders an integer: an optional minus sign, then the digits. */
  function Decimal(n: int): (s: string)
    ensures |s| >= 1 && '&' !in s
    ensures n < 0 ==> s[0] == '-' && s[1..] == NatDigits(-n)
    ensures n >= 0 ==> forall i :: 0 <= i < |s| ==> '0' <= s[i] <= '9'
    ensures n > 0 ==> s[0] != '0'
  {
    if n < 0 then "-" + NatDigits(-n) else NatDigits(n)
  }

  function ParseNat(s: string): int
    decreases |s|
  {
    if s == [] then 0 else ParseNat(s[..|s| - 1]) * 10 + (s[|s| - 1] as int - '0' as int)
  }

  function ParseInt(s: string): int {
    if |s| > 0 && s[0] == '-' then -ParseNat(s[1..]) else ParseNat(s)
  }

  lemma {:induction false} NatDigitsRoundTrip(n: nat)
    ensures ParseNat(NatDigits(n)) == n
    decreases n
  {
    if n >= 10 {
      NatDigitsRoundTrip(n / 10);
      var s := NatDigits(n);
      assert s[..|s| - 1] == NatDigits(n / 10);
    }
  }

  /** The `skip` value can be read back from its rendering. */
  lemma DecimalRoundTrip(n: int)
    ensures ParseInt(Decimal(n)) == n
  {
    if n < 0 {
      NatDigitsRoundTrip(-n);
      assert Decimal(n)[1..] == NatDigits(-n);
    } else {
      NatDigitsRoundTrip(n);
    }
  }

  /** The `&city=` segment: present only for a truthy city. */
  function CitySegment(city: Option<string>): (s: string)
    ensures s == [] <==> !Truthy(city)
    ensures Truthy(city) ==> |s| > 6 && s[..6] == "&city=" && s[6..] == city.value
  {
    if Truthy(city) then "&city=" + city.value else ""
  }

  /** The query string of the request, without URL encoding. */
  function Query(search: string, skip: int, city: Option<string>): (q: string)
    ensures |q| == 19 + |search| + |Decimal(skip)| + (if Truthy(city) then 6 + |city.value| else 0)
  {
    "q=" + search + "&limit=1000&skip=" + Decimal(skip) + CitySegment(city)
  }

  function Url(search: string, skip: int, city: Option<string>): (u: string)
    ensures |u| > |Endpoint| && u[..|Endpoint|] == Endpoint && u[|Endpoint|] == '?'
    ensures u[|Endpoint| + 1..] == Query(search, skip, city)
  {
    Endpoint + "?" + Query(search, skip, city)
  }

  /** Splits `s` at every occurrence of `sep`, as `String.prototype.split`. */
  function Split(s: string, sep: char): (r: seq<string>)
    ensures |r| >= 1
    decreases |s|
  {
    if s == [] then [[]]
    else
      var rest := Split(s[1..], sep);
      if s[0] == sep then [[]] + rest else [[s[0]] + rest[0]] + rest[1..]
  }

  lemma {:induction false} SplitNoSeparator(s: string, sep: char)
    requires sep !in s
    ensures Split(s, sep) == [s]
    decreases |s|
  {
    if s != [] {
      SplitNoSeparator(s[1..], sep);
      assert [s[0]] + s[1..] == s;
    }
  }

  lemma {:induction false} SplitAtFirst(a: string, sep: char, b: string)
    requires sep !in a
    ensures Split(a + ([sep] + b), sep) == [a] + Split(b, sep)
    decreases |a|
  {
    var s := a + ([sep] + b);
    if a == [] {
      assert s == [sep] + b;
      assert s[1..] == b;
    } else {
      assert s[1..] == a[1..] + ([sep] + b);
      SplitAtFirst(a[1..], sep, b);
      assert [a[0]] + a[1..] == a;
    }
  }

  /** When neither the search text nor the city contains `&`, the query has
      exactly the fields `q`, `limit=1000` and `skip`, followed by a `city`
      field if and only if the city is truthy. */
  lemma QueryFields(search: string, skip: int, city: Option<string>)
    requires '&' !in search
    requires city.Some? ==> '&' !in city.value
    ensures Split(Query(search, skip, city), '&') ==
      ["q=" + search, "limit=1000", "skip=" + Decimal(skip)] +
      (if Truthy(city) then ["city=" + city.value] else [])
  {
    var f1, f2, rest3 := "q=" + search, "limit=1000", "skip=" + Decimal(skip) + CitySegment(city);
    QueryShape(search, skip, city);
    assert '&' !in f1;
    SplitAtFirst(f1, '&', f2 + (['&'] + rest3));
    SplitAtFirst(f2, '&', rest3);
    SkipAndCityFields(skip, city);
  }

  /** The query as its first two fields, each followed by a separator, and the rest. */
  lemma QueryShape(search: string, skip: int, city: Option<string>)
    ensures Query(search, skip, city) ==
      ("q=" + search) + (['&'] + ("limit=1000" + (['&'] + ("skip=" + Decimal(skip) + CitySegment(city)))))
  {
    Rebracket("q=" + search, Decimal(skip), CitySegment(city));
  }

  lemma Rebracket(f1: string, d: string, seg: string)
    ensures f1 + "&limit=1000&skip=" + d + seg ==
      f1 + (['&'] + ("limit=1000" + (['&'] + ("skip=" + d + seg))))
  {
    var lit := "&limit=1000&skip=";
    ConcatAssoc4(f1, lit, d, seg);
    assert lit == ['&'] + ("limit=1000" + ['&']) + "skip=";
    ConcatAssoc4(['&'], "limit=1000" + ['&'], "skip=", d + seg);
    assert "skip=" + (d + seg) == "skip=" + d + seg;
  }

  lemma ConcatAssoc4(a: string, b: string, c: string, d: string)
    ensures a + b + c + d == a + (b + (c + d))
  {
  }

  lemma SkipAndCityFields(skip: int, city: Option<string>)
    requires city.Some? ==> '&' !in city.value
    ensures Split("skip=" + Decimal(skip) + CitySegment(city), '&') ==
      ["skip=" + Decimal(skip)] + (if Truthy(city) then ["city=" + city.value] else [])
  {
    DecimalRoundTrip(skip);
    var f3 := "skip=" + Decimal(skip);
    assert '&' !in f3;
    if Truthy(city) {
      LastTwoFields(f3, city.value);
    } else {
      assert f3 + CitySegment(city) == f3;
      SplitNoSeparator(f3, '&');
    }
  }

  lemma LastTwoFields(f3: string, c: string)
    requires '&' !in f3 && '&' !in c
    ensures Split(f3 + ("&city=" + c), '&') == [f3, "city=" + c]
  {
    var f4 := "city=" + c;
    assert "&city=" + c == ['&'] + f4;
    SplitAtFirst(f3, '&', f4);
    SplitNoSeparator(f4, '&');
  }

  /** Every query starts with the search text, the limit and the offset, and
      what follows them is the city segment: nothing without a truthy city. */
  lemma QueryPrefix(search: string, skip: int, city: Option<string>)
    ensures var base := "q=" + search + "&limit=1000&skip=" + Decimal(skip);
      && |base| <= |Query(search, skip, city)|
      && Query(search, skip, city)[..|base|] == base
      && (Truthy(city) <==> |Query(search, skip, city)| > |base|)
      && Query(search, skip, city)[|base|..] == CitySegment(city)
  {
  }
}
