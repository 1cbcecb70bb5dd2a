/** The component's state: nine `useState` fields and the handlers that set them. */
module UserListState {
  import opened Users
  import Derivation
  import Pagination
  import Cities
  import Request
  import CityFilter

  /** What a run of `fetchUsers` read when it started: the debounced search
      text, the offset and the selected city its closure captured. */
  datatype FetchRequest = FetchRequest(search: string, skip: int, city: Option<string>)

  /** How the awaited request ended: a response body, or a network or parse
      error (which is only logged). */
  datatype FetchOutcome = Succeeded(data: UserData) | Failed(error: string)

  class UserList {
    var users: seq<User>
    var totalUsers: int
    var search: string
    var skip: int
    var currentPage: int
    var isLoading: bool
    var selectedCity: Option<string>
    var highlightOldest: bool
    var cities: seq<string>

    /** The offset is the first row of the current page. */
    ghost predicate PagingConsistent()
      reads this
    {
      skip == Pagination.PageSize * (currentPage - 1)
    }

    /** The initial values of the nine state hooks. The first page number is 0,
        so the offset invariant does not hold until a handler runs. */
    constructor ()
      ensures users == [] && totalUsers == 0 && search == ""
      ensures skip == 0 && currentPage == 0 && !PagingConsistent()
      ensures !isLoading && selectedCity == None && !highlightOldest && cities == []
    {
      users, totalUsers, search := [], 0, "";
      skip, currentPage := 0, 0;
      isLoading, selectedCity, highlightOldest, cities := false, None, false, [];
    }

    /** `handleSearch`: new search text, back to the first page. */
    method HandleSearch(query: string)
      modifies this`search, this`skip, this`currentPage
      ensures search == query && skip == 0 && currentPage == 1
      ensures PagingConsistent()
    {
      search := query;
      skip := 0;
      currentPage := 1;
    }

    /** `handleOnPageChange`: the offset follows the page number. */
    method HandleOnPageChange(page: int)
      modifies this`skip, this`currentPage
      ensures skip == 10 * (page - 1) && currentPage == page
      ensures PagingConsistent()
    {
      skip := 10 * (page - 1);
      currentPage := page;
    }

    /** The city selector's `onChange`: a city, or none when cleared; back to
        the first page. */
    method SelectCity(value: Option<string>)
      modifies this`selectedCity, this`skip, this`currentPage
      ensures selectedCity == value && skip == 0 && currentPage == 1
      ensures PagingConsistent()
    {
      selectedCity := value;
      skip := 0;
      currentPage := 1;
    }

    /** The checkbox's `onChange`. */
    method SetHighlightOldest(checked: bool)
      modifies this`highlightOldest
      ensures highlightOldest == checked
    {
      highlightOldest := checked;
    }

    /** The start of `fetchUsers`: the loading flag goes up, and the request is
        built from the debounced search text and the current offset and city. */
    method BeginFetch(debouncedSearch: string) returns (req: FetchRequest)
      modifies this`isLoading
      ensures isLoading
      ensures req == FetchRequest(debouncedSearch, skip, selectedCity)
    {
      isLoading := true;
      req := FetchRequest(debouncedSearch, skip, selectedCity);
    }

    /** The end of `fetchUsers`. On success the users and the total are
        replaced by the response, the loading flag goes down, and, only if the
        request was made without a city, the city list becomes the response's
        distinct cities. On failure nothing changes: the loading flag stays up. */
    method CompleteFetch(req: FetchRequest, outcome: FetchOutcome)
      modifies this`users, this`totalUsers, this`cities, this`isLoading
      ensures outcome.Succeeded? ==>
        && users == outcome.data.users
        && totalUsers == outcome.data.total
        && !isLoading
        && cities == if Truthy(req.city) then old(cities) else Cities.UniqueCities(outcome.data.users)
      ensures outcome.Succeeded? && !Truthy(req.city) ==>
        && Cities.NoDuplicates(cities)
        && forall c :: c in cities <==> exists i :: 0 <= i < |users| && users[i].city == c
      ensures outcome.Failed? ==>
        users == old(users) && totalUsers == old(totalUsers) && cities == old(cities) && isLoading == old(isLoading)
    {
      match outcome
      case Succeeded(data) =>
        users := data.users;
        totalUsers := data.total;
        if !Truthy(req.city) {
          cities := Cities.UniqueCities(data.users);
          Cities.UniqueCitiesSpec(data.users);
        }
        isLoading := false;
      case Failed(_) =>
    }

    /** `filteredUsers` of the current state. */
    function FilteredUsers(): (r: seq<User>)
      reads this
      ensures |r| <= |users|
      ensures Truthy(selectedCity) ==> forall i :: 0 <= i < |r| ==> r[i].city == selectedCity.value
      ensures !Truthy(selectedCity) ==> |r| == |users|
    {
      Derivation.FilteredUsers(users, selectedCity, highlightOldest)
    }

    /** The table's data source: with a city selected, at most one page of
        that city's users; otherwise every filtered user. */
    function TableRows(): (rows: seq<User>)
      reads this
      ensures Truthy(selectedCity) ==>
        |rows| <= Pagination.PageSize && forall i :: 0 <= i < |rows| ==> rows[i].city == selectedCity.value
      ensures !Truthy(selectedCity) ==> rows == FilteredUsers() && |rows| == |users|
    {
      if Truthy(selectedCity) then
        Derivation.DisplayWithCity(users, selectedCity, highlightOldest, currentPage, totalUsers);
        Derivation.TableRows(FilteredUsers(), currentPage, selectedCity)
      else
        Derivation.DisplayWithoutCity(users, selectedCity, highlightOldest, currentPage, totalUsers);
        Derivation.TableRows(FilteredUsers(), currentPage, selectedCity)
    }

    /** The total the pagination control shows. */
    function PaginationTotal(): (t: int)
      reads this
      ensures Truthy(selectedCity) ==> t == |FilteredUsers()| && 0 <= t <= |users|
      ensures !Truthy(selectedCity) ==> t == totalUsers
    {
      Derivation.PaginationTotal(FilteredUsers(), totalUsers, selectedCity)
    }
  }

  /** A search for "john" answered with five users: the request asks for the
      first thousand matches from offset 0, and the table's data source is the
      five rows with a total of five. */
  method SearchScenario(data: UserData)
    requires data.total == 5 && |data.users| == 5
  {
    var list := new UserList();
    list.HandleSearch("john");
    var req := list.BeginFetch(list.search);
    assert Request.Decimal(0) == "0";
    assert Request.Query(req.search, req.skip, req.city) == "q=john&limit=1000&skip=0";
    list.CompleteFetch(req, Succeeded(data));
    assert list.PaginationTotal() == 5;
    assert |list.TableRows()| == 5;
  }

  /** A fetch that fails leaves the loading flag up, because the flag is
      lowered only at the end of the successful path. */
  method FailedFetchScenario()
  {
    var list := new UserList();
    list.HandleSearch("john");
    var req := list.BeginFetch(list.search);
    list.CompleteFetch(req, Failed(""));
    assert list.isLoading;
    assert list.users == [] && list.totalUsers == 0 && list.cities == [];
  }

  /** Selecting "Tokyo" and receiving 23 users of Tokyo: the total shows 23
      and the table's data source is the first ten of them. */
  method CityScenario(data: UserData)
    requires |data.users| == 23
    requires forall i :: 0 <= i < |data.users| ==> data.users[i].city == "Tokyo"
  {
    var list := new UserList();
    list.SelectCity(Some("Tokyo"));
    var req := list.BeginFetch(list.search);
    list.CompleteFetch(req, Succeeded(data));
    assert list.users == data.users && list.selectedCity == Some("Tokyo") && !list.highlightOldest;
    assert list.currentPage == 1;
    CityFilter.KeepCityAll(data.users, "Tokyo");
    assert CityFilter.FilterByCity(data.users, Some("Tokyo")) == data.users;
    assert list.FilteredUsers() == data.users;
    assert list.PaginationTotal() == 23;
    Pagination.PageSliceWindow(data.users, 1);
    assert Pagination.PageSlice(data.users, 1) == data.users[..10];
    assert list.TableRows() == data.users[..10];
  }
}
