/**
 * The listing endpoint's query: the filter it builds from the query
 * string, what that filter selects, the sort, the page window and the
 * pagination block; the "clear filters" listing; and the model's static
 * queries (customers with several addresses, with one address, and the
 * location search).
 */
module Query {
  import opened Wrappers
  import opened Text
  import opened Schema
  import opened Ordering

  /**
   * The listing's query-string parameters. A filter parameter that is
   * absent defaults to "", so it is held as a plain string; `page` and
   * `limit` are held as the integers `parseInt` produced.
   */
  datatype ListRequest = ListRequest(
    search: string,
    gender: string,
    status: string,
    city: string,
    state: string,
    pincode: string,
    addressType: string,
    isSingleAddress: string,
    sortBy: Option<string>,
    sortOrder: Option<string>,
    page: Option<int>,
    limit: Option<nat>)

  /** A request that only asks for a page. */
  function PageRequest(page: Option<int>, limit: Option<nat>): ListRequest {
    ListRequest("", "", "", "", "", "", "", "", None, None, page, limit)
  }

  /** The `$expr` size test on the address array. */
  datatype SizeTest = AnySize | ExactlyOne | MoreThanOne

  /** The filter document the endpoint builds; `None` is a key it did not set. */
  datatype Filter = Filter(
    text: Option<string>,
    gender: Option<string>,
    status: Option<string>,
    hasAddresses: bool,
    city: Option<string>,
    state: Option<string>,
    pincode: Option<string>,
    addressType: Option<string>,
    size: SizeTest)

  /** The `$or` of case-insensitive pattern tests over the five searchable fields. */
  predicate TextMatches(c: Customer, t: string) {
    || ContainsIgnoreCase(c.fname, t) || ContainsIgnoreCase(c.lname, t)
    || ContainsIgnoreCase(c.email, t) || ContainsIgnoreCase(c.mobile, t)
    || ContainsIgnoreCase(c.location, t)
  }

  /** A dotted-path condition on an array: some address satisfies it. */
  predicate SomeCity(c: Customer, t: string) {
    exists i :: 0 <= i < |c.addresses| && ContainsIgnoreCase(c.addresses[i].city, t)
  }

  predicate SomeState(c: Customer, t: string) {
    exists i :: 0 <= i < |c.addresses| && ContainsIgnoreCase(c.addresses[i].state, t)
  }

  predicate SomePincode(c: Customer, p: string) {
    exists i :: 0 <= i < |c.addresses| && c.addresses[i].pincode == p
  }

  predicate SomeAddressType(c: Customer, t: string) {
    exists i :: 0 <= i < |c.addresses| && c.addresses[i].addressType == t
  }

  /** Whether the database returns `c` for filter `f`: every key that is set must hold. */
  predicate Matches(f: Filter, c: Customer) {
    && (f.text.Some? ==> TextMatches(c, f.text.value))
    && (f.gender.Some? ==> c.gender == f.gender.value)
    && (f.status.Some? ==> c.status == f.status.value)
    && (f.hasAddresses ==> |c.addresses| > 0)
    && (f.city.Some? ==> SomeCity(c, f.city.value))
    && (f.state.Some? ==> SomeState(c, f.state.value))
    && (f.pincode.Some? ==> SomePincode(c, f.pincode.value))
    && (f.addressType.Some? ==> SomeAddressType(c, f.addressType.value))
    && (f.size == ExactlyOne ==> |c.addresses| == 1)
    && (f.size == MoreThanOne ==> |c.addresses| > 1)
  }

  /** A filter value that takes part: non-empty and not the "All" choice. */
  predicate Chosen(v: string) {
    v != "" && v != "All"
  }

  /**
   * What the listing selects, parameter by parameter: the search text in
   * any searchable field; gender, status and address type when chosen;
   * a non-empty address list with matching city, state and pincode (each
   * satisfied by any address) when one of them is given; one address for
   * "true" and several for "false".
   */
  predicate Selected(r: ListRequest, c: Customer) {
    && (r.search != "" ==> TextMatches(c, r.search))
    && (Chosen(r.gender) ==> c.gender == r.gender)
    && (Chosen(r.status) ==> c.status == r.status)
    && (r.city != "" || r.state != "" || r.pincode != "" ==> |c.addresses| > 0)
    && (r.city != "" ==> SomeCity(c, r.city))
    && (r.state != "" ==> SomeState(c, r.state))
    && (r.pincode != "" ==> SomePincode(c, r.pincode))
    && (Chosen(r.addressType) ==> SomeAddressType(c, r.addressType))
    && (r.isSingleAddress == "true" ==> |c.addresses| == 1)
    && (r.isSingleAddress == "false" ==> |c.addresses| > 1)
  }

  /** The listing's filter, built key by key as the endpoint does; it selects exactly `Selected`. */
  method BuildQuery(r: ListRequest) returns (f: Filter)
    ensures forall c :: Matches(f, c) <==> Selected(r, c)
  {
    var text, gender, status := None, None, None;
    var hasAddresses, city, state, pincode := false, None, None, None;
    var addressType, size := None, AnySize;
    if r.search != "" {
      text := Some(r.search);
    }
    assert text == (if r.search != "" then Some(r.search) else None);
    if r.gender != "" && r.gender != "All" {
      gender := Some(r.gender);
    }
    assert gender == (if Chosen(r.gender) then Some(r.gender) else None);
    if r.status != "" && r.status != "All" {
      status := Some(r.status);
    }
    assert status == (if Chosen(r.status) then Some(r.status) else None);
    if r.city != "" || r.state != "" || r.pincode != "" {
      hasAddresses := true;
      if r.city != "" {
        city := Some(r.city);
      }
      if r.state != "" {
        state := Some(r.state);
      }
      if r.pincode != "" {
        pincode := Some(r.pincode);
      }
    }
    assert city == (if r.city != "" then Some(r.city) else None);
    assert state == (if r.state != "" then Some(r.state) else None);
    assert pincode == (if r.pincode != "" then Some(r.pincode) else None);
    if r.addressType != "" && r.addressType != "All" {
      addressType := Some(r.addressType);
    }
    assert addressType == (if Chosen(r.addressType) then Some(r.addressType) else None);
    if r.isSingleAddress != "" {
      if r.isSingleAddress == "true" {
        size := ExactlyOne;
      } else if r.isSingleAddress == "false" {
        size := MoreThanOne;
      }
    }
    assert size == (if r.isSingleAddress == "true" then ExactlyOne
                    else if r.isSingleAddress == "false" then MoreThanOne else AnySize);
    f := Filter(text, gender, status, hasAddresses, city, state, pincode, addressType, size);
    FilterFields(r, f);
  }

  /** A filter whose keys are set exactly for the request's effective parameters selects what the request selects. */
  lemma FilterFields(r: ListRequest, f: Filter)
    requires f.text == (if r.search != "" then Some(r.search) else None)
    requires f.gender == (if Chosen(r.gender) then Some(r.gender) else None)
    requires f.status == (if Chosen(r.status) then Some(r.status) else None)
    requires f.hasAddresses == (r.city != "" || r.state != "" || r.pincode != "")
    requires f.city == (if r.city != "" then Some(r.city) else None)
    requires f.state == (if r.state != "" then Some(r.state) else None)
    requires f.pincode == (if r.pincode != "" then Some(r.pincode) else None)
    requires f.addressType == (if Chosen(r.addressType) then Some(r.addressType) else None)
    requires f.size == (if r.isSingleAddress == "true" then ExactlyOne
                        else if r.isSingleAddress == "false" then MoreThanOne else AnySize)
    ensures forall c :: Matches(f, c) <==> Selected(r, c)
  {
  }

  /** "All" selects the same records as leaving the gender, status or address type filter out. */
  lemma AllMeansUnfiltered(r: ListRequest, c: Customer)
    ensures Selected(r.(gender := "All"), c) == Selected(r.(gender := ""), c)
    ensures Selected(r.(status := "All"), c) == Selected(r.(status := ""), c)
    ensures Selected(r.(addressType := "All"), c) == Selected(r.(addressType := ""), c)
  {
  }

  /** Without any filter parameter every record is selected. */
  lemma NoFilterSelectsAll(page: Option<int>, limit: Option<nat>, c: Customer)
    ensures Selected(PageRequest(page, limit), c)
  {
  }

  /** A request filtering by location only. */
  function LocationRequest(city: string, state: string, pincode: string): ListRequest {
    PageRequest(None, None).(city := city, state := state, pincode := pincode)
  }

  /**
   * The city, state and pincode conditions are tested against the address
   * list independently: a customer whose one address is in the city and
   * another in the state is selected even though no single address has both.
   */
  lemma LocationTestsIndependent(a: Address, b: Address, c: Customer, city: string, state: string)
    requires city != "" && state != "" && c.addresses == [a, b]
    requires ContainsIgnoreCase(a.city, city) && !ContainsIgnoreCase(a.state, state)
    requires ContainsIgnoreCase(b.state, state) && !ContainsIgnoreCase(b.city, city)
    ensures Selected(LocationRequest(city, state, ""), c)
    ensures forall i :: 0 <= i < |c.addresses| ==>
              !(ContainsIgnoreCase(c.addresses[i].city, city) && ContainsIgnoreCase(c.addresses[i].state, state))
  {
    assert c.addresses[0] == a && c.addresses[1] == b;
  }

  /** `sortBy`/`sortOrder` as a sort object: "name" sorts by first name; descending unless `sortOrder` is given and is not "desc". */
  function SortSpecOf(r: ListRequest): (s: SortSpec)
    ensures s.descending <==> r.sortOrder.GetOr("desc") == "desc"
    ensures r.sortBy.None? ==> s.field == "datecreated"
    ensures r.sortBy == Some("name") ==> s.field == "fname"
    ensures r.sortBy.Some? && r.sortBy.value != "name" ==> s.field == r.sortBy.value
  {
    var sortBy := r.sortBy.GetOr("datecreated");
    var descending := r.sortOrder.GetOr("desc") == "desc";
    if sortBy == "name" then SortSpec("fname", descending)
    else if sortBy == "email" then SortSpec("email", descending)
    else SortSpec(sortBy, descending)
  }

  /** The records of `s` that `keep` accepts, in their order. */
  function Where(s: seq<Customer>, keep: Customer -> bool): (r: seq<Customer>)
    ensures |r| <= |s|
    ensures forall c :: c in r <==> c in s && keep(c)
    decreases |s|
  {
    if s == [] then [] else (if keep(s[0]) then [s[0]] else []) + Where(s[1..], keep)
  }

  /** A test every record passes keeps every record. */
  lemma {:induction false} WhereAll(s: seq<Customer>, keep: Customer -> bool)
    requires forall c :: c in s ==> keep(c)
    ensures Where(s, keep) == s
    decreases |s|
  {
    if s != [] {
      assert forall c :: c in s[1..] ==> c in s;
      WhereAll(s[1..], keep);
    }
  }

  /** Tests that agree on the records of `s` select the same records. */
  lemma {:induction false} WhereAgree(s: seq<Customer>, keep1: Customer -> bool, keep2: Customer -> bool)
    requires forall c :: c in s ==> (keep1(c) <==> keep2(c))
    ensures Where(s, keep1) == Where(s, keep2)
    decreases |s|
  {
    if s != [] {
      assert forall c :: c in s[1..] ==> c in s;
      WhereAgree(s[1..], keep1, keep2);
    }
  }

  // ---------------------------------------------------------------------------
  // Pagination

  /** `Math.ceil(a / b)` for a positive divisor. */
  function CeilDiv(a: nat, b: nat): nat
    requires b > 0
  {
    (a + b - 1) / b
  }

  /** `CeilDiv(a, b)` is the fewest pages of `b` records that hold `a` records. */
  lemma CeilDivMeaning(a: nat, b: nat, n: nat)
    requires b > 0
    ensures CeilDiv(a, b) * b >= a
    ensures n * b >= a ==> n >= CeilDiv(a, b)
  {
    var q := CeilDiv(a, b);
    var m := (a + b - 1) % b;
    assert a + b - 1 == q * b + m;
    if n * b >= a && n < q {
      assert n + 1 <= q;
      MulMonotone(n + 1, q, b);
      assert false;
    }
  }

  lemma MulMonotone(x: nat, y: nat, b: nat)
    requires x <= y
    ensures x * b <= y * b
  {
  }

  /** `totalPages`: a count, or Infinity or NaN when the limit is 0 (`count / 0`). */
  datatype PageCount = Pages(n: nat) | Infinite | NotANumber

  function PageCountOf(count: nat, limit: nat): PageCount {
    if limit > 0 then Pages(CeilDiv(count, limit))
    else if count > 0 then Infinite
    else NotANumber
  }

  /** `currentPage < totalPages`, where every comparison with NaN is false. */
  predicate Below(page: int, total: PageCount) {
    match total
    case Pages(n) => page < n
    case Infinite => true
    case NotANumber => false
  }

  datatype Pagination = Pagination(
    currentPage: int,
    totalPages: PageCount,
    totalItems: nat,
    itemsPerPage: nat,
    hasNextPage: bool,
    hasPrevPage: bool)

  /** The pagination block for `count` matching records. */
  function PaginationOf(page: int, limit: nat, count: nat): Pagination {
    var total := PageCountOf(count, limit);
    Pagination(page, total, count, limit, Below(page, total), page > 1)
  }

  /** `.skip(skip).limit(limit)` on sorted results; limit 0 means no limit. */
  function Window(s: seq<Customer>, skip: nat, limit: nat): seq<Customer> {
    if skip >= |s| then []
    else if limit == 0 || skip + limit >= |s| then s[skip..]
    else s[skip..skip + limit]
  }

  /** The window holds the records from position `skip` on, at most `limit` of them when `limit` is positive. */
  lemma WindowIndex(s: seq<Customer>, skip: nat, limit: nat)
    ensures limit > 0 ==> |Window(s, skip, limit)| <= limit
    ensures skip < |s| ==> |Window(s, skip, limit)| > 0
    ensures forall k :: 0 <= k < |Window(s, skip, limit)| ==> skip + k < |s| && Window(s, skip, limit)[k] == s[skip + k]
  {
  }

  /** One page of a listing. */
  datatype Listing = Listing(users: seq<Customer>, pagination: Pagination)

  /** A listing reply: the page, or the 500 the database's refusal of a negative skip turns into. */
  datatype ListReply = Listed(listing: Listing) | ListFailed

  /** Page `page` of `limit` records of `matched` sorted by `spec`, with its pagination block. */
  function Paged(matched: seq<Customer>, spec: SortSpec, page: int, limit: nat): ListReply {
    var skip := (page - 1) * limit;
    if skip < 0 then ListFailed
    else Listed(Listing(Window(SortRecords(matched, spec), skip, limit), PaginationOf(page, limit, |matched|)))
  }

  /** The listing for `r` over the stored records `store`. */
  function ListSpec(r: ListRequest, store: seq<Customer>): ListReply {
    Paged(Where(store, c => Selected(r, c)), SortSpecOf(r), r.page.GetOr(1), r.limit.GetOr(10))
  }

  /** The "clear filters" listing: every record, newest first. */
  function ClearSpec(page: Option<int>, limit: Option<nat>, store: seq<Customer>): ListReply {
    Paged(store, SortSpec("datecreated", true), page.GetOr(1), limit.GetOr(10))
  }

  lemma SortedLength(s: seq<Customer>, spec: SortSpec)
    ensures |SortRecords(s, spec)| == |s|
  {
    assert |multiset(SortRecords(s, spec))| == |multiset(s)|;
  }

  /** A page fails exactly when a page below 1 is asked for with a positive limit. */
  lemma PagedFailsIff(matched: seq<Customer>, spec: SortSpec, page: int, limit: nat)
    ensures Paged(matched, spec, page, limit).ListFailed? <==> page < 1 && limit > 0
  {
    SkipNegative(page, limit);
  }

  /** The skip `(page - 1) * limit` is negative exactly for a page below 1 with a positive limit. */
  lemma SkipNegative(page: int, limit: nat)
    ensures (page - 1) * limit < 0 <==> page < 1 && limit > 0
  {
    if page < 1 && limit > 0 {
      MulMonotone(1, 1 - page, limit);
    } else if limit > 0 {
      MulMonotone(0, page - 1, limit);
    }
  }

  /** Every record on a page is one of `matched`, and the page is in `spec` order. */
  lemma PagedSound(matched: seq<Customer>, spec: SortSpec, page: int, limit: nat)
    requires Paged(matched, spec, page, limit).Listed?
    ensures var users := Paged(matched, spec, page, limit).listing.users;
            && (forall c :: c in users ==> c in matched)
            && SortedBy(users, spec)
  {
    var skip := (page - 1) * limit;
    var sorted := SortRecords(matched, spec);
    var users := Window(sorted, skip, limit);
    WindowIndex(sorted, skip, limit);
    forall c | c in users ensures c in matched {
      var k :| 0 <= k < |users| && users[k] == c;
      assert sorted[skip + k] in multiset(sorted);
    }
  }

  /**
   * With a positive limit and a page of at least 1, the page holds
   * `min(limit, count - skip)` records (none past the end), `totalItems`
   * is the count, and `hasNextPage` holds exactly when records remain
   * after the page.
   */
  lemma PagedCounts(matched: seq<Customer>, spec: SortSpec, page: int, limit: nat)
    requires page >= 1 && limit > 0
    ensures Paged(matched, spec, page, limit).Listed?
    ensures var l := Paged(matched, spec, page, limit).listing;
            var skip := (page - 1) * limit;
            && l.pagination == Pagination(page, Pages(CeilDiv(|matched|, limit)), |matched|, limit,
                                          skip + limit < |matched|, page > 1)
            && |l.users| == (if skip >= |matched| then 0
                             else if skip + limit <= |matched| then limit
                             else |matched| - skip)
  {
    PageSkip(page, limit);
    SortedLength(matched, spec);
    HasNextMeaning(page, limit, |matched|);
  }

  /** The skip of page `page` is not negative, and the next page starts `limit` records later. */
  lemma PageSkip(page: int, limit: nat)
    requires page >= 1
    ensures 0 <= (page - 1) * limit && (page - 1) * limit + limit == page * limit
  {
    MulMonotone(0, page - 1, limit);
  }

  /** With a positive limit, `page < ceil(count / limit)` says records remain after page `page`. */
  lemma HasNextMeaning(page: int, limit: nat, count: nat)
    requires page >= 1 && limit > 0
    ensures Below(page, PageCountOf(count, limit)) <==> page * limit < count
  {
    CeilDivMeaning(count, limit, page);
    if page >= CeilDiv(count, limit) {
      MulMonotone(CeilDiv(count, limit), page, limit);
    }
  }

  /**
   * Paging with a positive limit walks one fixed sorted sequence: position
   * `r` of page `page` is position `(page - 1) * limit + r` of the sorted
   * records.
   */
  lemma PagedCover(matched: seq<Customer>, spec: SortSpec, limit: nat, page: int, r: nat)
    requires page >= 1 && r < limit && (page - 1) * limit + r < |matched|
    ensures var p := Paged(matched, spec, page, limit);
            && p.Listed?
            && r < |p.listing.users| && (page - 1) * limit + r < |SortRecords(matched, spec)|
            && p.listing.users[r] == SortRecords(matched, spec)[(page - 1) * limit + r]
  {
    SortedLength(matched, spec);
    PageSkip(page, limit);
    WindowIndex(SortRecords(matched, spec), (page - 1) * limit, limit);
  }

  /** Nothing matched: page 1 is empty, `totalPages` is 0 and neither flag is set. */
  lemma PagedEmpty(spec: SortSpec, limit: nat)
    requires limit > 0
    ensures Paged([], spec, 1, limit) == Listed(Listing([], Pagination(1, Pages(0), 0, limit, false, false)))
  {
    assert SortRecords([], spec) == [];
  }

  /** With limit 0 the page is every record, sorted, and `totalPages` is Infinity, or NaN when there is no record. */
  lemma PagedWithoutLimit(matched: seq<Customer>, spec: SortSpec, page: int)
    ensures Paged(matched, spec, page, 0).Listed?
    ensures var l := Paged(matched, spec, page, 0).listing;
            && l.users == SortRecords(matched, spec)
            && (l.pagination.totalPages == Infinite <==> |matched| > 0)
            && (l.pagination.totalPages == NotANumber <==> |matched| == 0)
            && (l.pagination.hasNextPage <==> |matched| > 0)
  {
    SortedLength(matched, spec);
  }

  /** Every listed record is stored and selected by the request, and the listing is in the requested order. */
  lemma ListSound(r: ListRequest, store: seq<Customer>)
    requires ListSpec(r, store).Listed?
    ensures var users := ListSpec(r, store).listing.users;
            && (forall c :: c in users ==> c in store && Selected(r, c))
            && SortedBy(users, SortSpecOf(r))
  {
    PagedSound(Where(store, c => Selected(r, c)), SortSpecOf(r), r.page.GetOr(1), r.limit.GetOr(10));
  }

  /** `totalItems` of a listing counts every stored record the request selects, not just the page. */
  lemma ListCountsSelection(r: ListRequest, store: seq<Customer>)
    requires ListSpec(r, store).Listed?
    ensures ListSpec(r, store).listing.pagination.totalItems == |Where(store, c => Selected(r, c))|
  {
  }

  /** "Clear filters" gives the same reply as the listing asked for only the same page and limit. */
  lemma ClearIsDefaultListing(page: Option<int>, limit: Option<nat>, store: seq<Customer>)
    ensures ClearSpec(page, limit, store) == ListSpec(PageRequest(page, limit), store)
  {
    WhereAll(store, c => Selected(PageRequest(page, limit), c));
  }

  // ---------------------------------------------------------------------------
  // Static queries

  /** `getMultipleAddressCustomers`: records with more than one address. */
  function MultipleAddressCustomers(store: seq<Customer>): seq<Customer> {
    Where(store, (c: Customer) => |c.addresses| > 1)
  }

  /** `getSingleAddressCustomers`: records with exactly one address. */
  function SingleAddressCustomers(store: seq<Customer>): seq<Customer> {
    Where(store, (c: Customer) => |c.addresses| == 1)
  }

  /**
   * The two statics split the records that have an address: each such
   * record is in exactly one of them, a record without address in
   * neither; and they agree with the listing's `isSingleAddress` filter.
   */
  lemma AddressCountStatics(store: seq<Customer>)
    ensures forall c :: c in store ==>
              ((c in MultipleAddressCustomers(store) || c in SingleAddressCustomers(store)) <==> |c.addresses| > 0)
    ensures forall c :: !(c in MultipleAddressCustomers(store) && c in SingleAddressCustomers(store))
    ensures MultipleAddressCustomers(store) == Where(store, c => Selected(PageRequest(None, None).(isSingleAddress := "false"), c))
    ensures SingleAddressCustomers(store) == Where(store, c => Selected(PageRequest(None, None).(isSingleAddress := "true"), c))
  {
    WhereAgree(store, (c: Customer) => |c.addresses| > 1, c => Selected(PageRequest(None, None).(isSingleAddress := "false"), c));
    WhereAgree(store, (c: Customer) => |c.addresses| == 1, c => Selected(PageRequest(None, None).(isSingleAddress := "true"), c));
  }

  /** `searchByLocation`: each given parameter must be met by some address (city and state as case-insensitive patterns, pincode exactly). */
  predicate LocationMatches(city: string, state: string, pincode: string, c: Customer) {
    && (city != "" ==> SomeCity(c, city))
    && (state != "" ==> SomeState(c, state))
    && (pincode != "" ==> SomePincode(c, pincode))
  }

  /** The `searchByLocation` static's filter, built key by key; it selects exactly `LocationMatches`. */
  method BuildLocationQuery(city: string, state: string, pincode: string) returns (f: Filter)
    ensures forall c :: Matches(f, c) <==> LocationMatches(city, state, pincode, c)
  {
    var cityTest, stateTest, pincodeTest := None, None, None;
    if city != "" {
      cityTest := Some(city);
    }
    if state != "" {
      stateTest := Some(state);
    }
    if pincode != "" {
      pincodeTest := Some(pincode);
    }
    f := Filter(None, None, None, false, cityTest, stateTest, pincodeTest, None, AnySize);
  }

  function SearchByLocation(city: string, state: string, pincode: string, store: seq<Customer>): seq<Customer> {
    Where(store, c => LocationMatches(city, state, pincode, c))
  }

  /** When a location parameter is given, the location search selects the same records as the listing filtered by those parameters. */
  lemma LocationSearchAgreesWithListing(city: string, state: string, pincode: string, store: seq<Customer>)
    requires city != "" || state != "" || pincode != ""
    ensures SearchByLocation(city, state, pincode, store)
            == Where(store, c => Selected(LocationRequest(city, state, pincode), c))
  {
    var r := LocationRequest(city, state, pincode);
    forall c | c in store ensures LocationMatches(city, state, pincode, c) <==> Selected(r, c) {
      if LocationMatches(city, state, pincode, c) {
        if city != "" {
          var i :| 0 <= i < |c.addresses| && ContainsIgnoreCase(c.addresses[i].city, city);
        } else if state != "" {
          var i :| 0 <= i < |c.addresses| && ContainsIgnoreCase(c.addresses[i].state, state);
        } else {
          var i :| 0 <= i < |c.addresses| && c.addresses[i].pincode == pincode;
        }
      }
    }
    WhereAgree(store, c => LocationMatches(city, state, pincode, c), c => Selected(LocationRequest(city, state, pincode), c));
  }
}
