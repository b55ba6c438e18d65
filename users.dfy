/**
 * The user-list query of the users service: narrow the users by a
 * `field:value` search, order them by a `field:order` sort, and return one
 * page of them with the total count and the number of pages.
 *
 * The users come from the repository and are a parameter here. The
 * collation of `localeCompare` is a parameter `le`, read as
 * "`a.localeCompare(b)` is not positive".
 */
module Users {

  /** A stored user, as the repository returns it. */
  datatype User = User(id: string, name: string, email: string, password: string)

  /** What the listing shows of a user: no password. */
  datatype UserView = UserView(id: string, name: string, email: string)

  datatype Option<T> = None | Some(value: T)

  /** The ways the query fails. */
  datatype QueryError =
    | UndefinedSortOrder                 // `sort` has no ':', so reading its order throws
    | InvalidSortOrder(order: string)     // the order is neither "asc" nor "desc"
    | UnsupportedSortField(field: string) // the comparator was called for a field it does not know
    | UndefinedUser                       // the page starts before the list, so a missing user is read

  datatype Result<T> = Ok(value: T) | Err(error: QueryError)

  /** `Math.ceil(count / page_size)` as a JavaScript number. */
  datatype PageTotal = Finite(pages: int) | Infinity | NaN

  /** The record the query returns. */
  datatype UsersPage = UsersPage(
    count: nat,
    pageNumber: int,
    pageSize: int,
    totalPages: PageTotal,
    results: seq<UserView>)

  // ---------------------------------------------------------------------------
  // Splitting `field:value` parameters

  /** Index of the first ':' in `s`, or `|s|` when there is none. */
  function ColonIndex(s: string): (i: nat)
    ensures i <= |s|
    ensures i < |s| ==> s[i] == ':'
    ensures forall k :: 0 <= k < i ==> s[k] != ':'
  {
    if s == [] || s[0] == ':' then 0 else 1 + ColonIndex(s[1..])
  }

  /** `s.split(":")[0]`. */
  function FieldOf(s: string): string
  {
    s[..ColonIndex(s)]
  }

  /** `s.split(":")[1]`, or None when the split has a single piece. */
  function ValueOf(s: string): Option<string>
  {
    var i := ColonIndex(s);
    if i == |s| then None
    else
      var rest := s[i + 1..];
      Some(rest[..ColonIndex(rest)])
  }

  lemma {:induction false} ColonIndexAt(a: string, b: string)
    requires ':' !in a
    requires b == [] || b[0] == ':'
    ensures ColonIndex(a + b) == |a|
    decreases |a|
  {
    if a != [] {
      assert (a + b)[0] == a[0];
      assert (a + b)[1..] == a[1..] + b;
      ColonIndexAt(a[1..], b);
    }
  }

  /**
   * Splitting `field:value` (optionally followed by more ':'-separated
   * pieces) gives back the field and the value.
   */
  lemma SplitFieldValue(field: string, value: string, tail: string)
    requires ':' !in field && ':' !in value
    requires tail == [] || tail[0] == ':'
    ensures FieldOf(field + ":" + value + tail) == field
    ensures ValueOf(field + ":" + value + tail) == Some(value)
  {
    var s := field + ":" + value + tail;
    ColonIndexAt(field, ":" + value + tail);
    assert s == field + (":" + value + tail);
    assert s[..|field|] == field;
    var rest := s[|field| + 1..];
    assert rest == value + tail;
    ColonIndexAt(value, tail);
    assert rest[..|value|] == value;
  }

  /** A parameter with no ':' has no value. */
  lemma NoColonNoValue(s: string)
    requires ':' !in s
    ensures FieldOf(s) == s && ValueOf(s) == None
  {
    ColonIndexAt(s, []);
    assert s + [] == s;
  }

  // ---------------------------------------------------------------------------
  // Search (`getUsers`, users-service.js:12-26)

  /** `hay.includes(needle)`: the needle occurs somewhere in the hay. */
  predicate Contains(hay: string, needle: string)
  {
    exists i :: 0 <= i <= |hay| && needle <= hay[i..]
  }

  /** The filter callback: the named field contains the needle; other fields let everyone through. */
  predicate Matches(u: User, field: string, needle: string)
  {
    if field == "name" then Contains(u.name, needle)
    else if field == "email" then Contains(u.email, needle)
    else true
  }

  /** `a` is `b` with some elements left out, the rest in their order. */
  ghost predicate IsSubsequence<T>(a: seq<T>, b: seq<T>)
    decreases |b|
  {
    a == [] || (b != [] && ((a[0] == b[0] && IsSubsequence(a[1..], b[1..])) || IsSubsequence(a, b[1..])))
  }

  /**
   * `users.filter(...)`: exactly the users that match, each as often as in
   * `users`, in their original order.
   */
  function FilterUsers(users: seq<User>, field: string, needle: string): (r: seq<User>)
    ensures |r| <= |users|
    ensures forall u :: multiset(r)[u] == if Matches(u, field, needle) then multiset(users)[u] else 0
    ensures IsSubsequence(r, users)
    decreases |users|
  {
    if users == [] then []
    else
      var rest := FilterUsers(users[1..], field, needle);
      assert users == [users[0]] + users[1..];
      if Matches(users[0], field, needle) then [users[0]] + rest else rest
  }

  /** The needle JavaScript searches for: the value, or "undefined" when there is none. */
  function NeedleOf(search: string): string
  {
    match ValueOf(search)
    case Some(v) => v
    case None => "undefined"
  }

  /** The users left after the search; an empty search keeps them all. */
  function Searched(users: seq<User>, search: string): seq<User>
  {
    if search == "" then users else FilterUsers(users, FieldOf(search), NeedleOf(search))
  }

  /** A search `field:value` filters on that field with that value. */
  lemma SearchByField(users: seq<User>, field: string, value: string)
    requires ':' !in field && ':' !in value
    ensures Searched(users, field + ":" + value) == FilterUsers(users, field, value)
  {
    SplitFieldValue(field, value, []);
    assert field + ":" + value + [] == field + ":" + value;
  }

  /** A field other than name and email keeps every user, in order. */
  lemma {:induction false} OtherFieldKeepsAll(users: seq<User>, field: string, needle: string)
    requires field != "name" && field != "email"
    ensures FilterUsers(users, field, needle) == users
    decreases |users|
  {
    if users != [] {
      OtherFieldKeepsAll(users[1..], field, needle);
    }
  }

  // ---------------------------------------------------------------------------
  // Sort (`getUsers`, users-service.js:27-52)

  /** A requested order: the field to sort by and whether it is descending. */
  datatype SortRequest = SortRequest(field: string, descending: bool)

  /** `s.toLowerCase()` on ASCII letters. */
  function LowerAscii(s: string): (r: string)
    ensures |r| == |s|
    ensures forall i :: 0 <= i < |s| ==>
              (if 'A' <= s[i] <= 'Z' then r[i] as int == s[i] as int + 32 else r[i] == s[i])
    decreases |s|
  {
    if s == [] then []
    else [if 'A' <= s[0] <= 'Z' then (s[0] as int + 32) as char else s[0]] + LowerAscii(s[1..])
  }

  /**
   * Reads the sort parameter: Ok(None) when there is none, an error when it
   * has no order or the order is neither "asc" nor "desc" in any case.
   */
  function ParseSort(sort: string): (r: Result<Option<SortRequest>>)
    ensures r == Ok(None) <==> sort == ""
    ensures sort != "" && ValueOf(sort).None? ==> r == Err(UndefinedSortOrder)
    ensures sort != "" && ValueOf(sort).Some? ==>
              var order := LowerAscii(ValueOf(sort).value);
              if order == "asc" || order == "desc" then r == Ok(Some(SortRequest(FieldOf(sort), order == "desc")))
              else r == Err(InvalidSortOrder(order))
  {
    if sort == "" then Ok(None)
    else
      match ValueOf(sort)
      case None => Err(UndefinedSortOrder)
      case Some(raw) =>
        var order := LowerAscii(raw);
        if order != "asc" && order != "desc" then Err(InvalidSortOrder(order))
        else Ok(Some(SortRequest(FieldOf(sort), order == "desc")))
  }

  /**
   * `field:ASC`, `field:Desc` and the like are accepted in any case; pieces
   * after a second ':' are ignored.
   */
  lemma SortOrderAnyCase(field: string, order: string, tail: string)
    requires ':' !in field && ':' !in order
    requires tail == [] || tail[0] == ':'
    requires LowerAscii(order) == "asc" || LowerAscii(order) == "desc"
    ensures ParseSort(field + ":" + order + tail) == Ok(Some(SortRequest(field, LowerAscii(order) == "desc")))
  {
    SplitFieldValue(field, order, tail);
  }

  /** An order that is neither "asc" nor "desc" in any case is rejected, lower-cased. */
  lemma SortOrderRejected(field: string, order: string, tail: string)
    requires ':' !in field && ':' !in order
    requires tail == [] || tail[0] == ':'
    requires LowerAscii(order) != "asc" && LowerAscii(order) != "desc"
    ensures ParseSort(field + ":" + order + tail) == Err(InvalidSortOrder(LowerAscii(order)))
  {
    SplitFieldValue(field, order, tail);
  }

  /** A sort parameter without ':' has no order and is rejected. */
  lemma SortWithoutOrder(sort: string)
    requires ':' !in sort && sort != ""
    ensures ParseSort(sort) == Err(UndefinedSortOrder)
  {
    NoColonNoValue(sort);
  }

  /**
   * Every sort parameter is empty, has no ':', or splits as
   * `field:order` followed by nothing or by more ':' pieces, so the three
   * lemmas above and the empty case cover every input.
   */
  lemma SortShapes(sort: string) returns (field: string, order: string, tail: string)
    requires ':' in sort
    ensures ':' !in field && ':' !in order
    ensures tail == [] || tail[0] == ':'
    ensures sort == field + ":" + order + tail
  {
    var i := ColonIndex(sort);
    var rest := sort[i + 1..];
    var j := ColonIndex(rest);
    field, order, tail := sort[..i], rest[..j], rest[j..];
    assert forall k :: 0 <= k < |field| ==> field[k] == sort[k];
    assert forall k :: 0 <= k < |order| ==> order[k] == rest[k];
    assert sort == field + [':'] + rest;
    assert rest == order + tail;
  }

  /** The request that `field:order` names, for a valid order. */
  function RequestOf(field: string, order: string): SortRequest
  {
    SortRequest(field, LowerAscii(order) == "desc")
  }

  /** Whether a request sorts by email (otherwise by name). */
  function ByEmail(req: SortRequest): bool
  {
    req.field == "email"
  }

  /** The sort key of a user. */
  function Key(u: User, byEmail: bool): string
  {
    if byEmail then u.email else u.name
  }

  /** `prec(a, b)`: the comparator does not put `a` after `b`. */
  ghost predicate TotalPreorder(prec: (string, string) -> bool)
  {
    && (forall a, b :: prec(a, b) || prec(b, a))
    && (forall a, b, c :: prec(a, b) && prec(b, c) ==> prec(a, c))
  }

  /** The comparator of `getUsers` (users-service.js:37-47): the collation, reversed for a descending sort. */
  function Comparator(le: (string, string) -> bool, descending: bool): (string, string) -> bool
  {
    if descending then (a, b) => le(b, a) else le
  }

  lemma ComparatorIsPreorder(le: (string, string) -> bool, descending: bool)
    requires TotalPreorder(le)
    ensures TotalPreorder(Comparator(le, descending))
  {
  }

  /** Puts `x` before the first element it does not follow. */
  function Insert(x: User, s: seq<User>, byEmail: bool, prec: (string, string) -> bool): (r: seq<User>)
    ensures multiset(r) == multiset(s) + multiset{x}
    decreases |s|
  {
    if s == [] then [x]
    else if prec(Key(x, byEmail), Key(s[0], byEmail)) then [x] + s
    else
      assert s == [s[0]] + s[1..];
      [s[0]] + Insert(x, s[1..], byEmail, prec)
  }

  /** The stable sort `Array.prototype.sort` performs with the comparator `prec`. */
  function SortBy(s: seq<User>, byEmail: bool, prec: (string, string) -> bool): (r: seq<User>)
    ensures multiset(r) == multiset(s)
    decreases |s|
  {
    if s == [] then []
    else
      assert s == [s[0]] + s[1..];
      Insert(s[0], SortBy(s[1..], byEmail, prec), byEmail, prec)
  }

  ghost predicate Sorted(s: seq<User>, byEmail: bool, prec: (string, string) -> bool)
  {
    forall i, j :: 0 <= i < j < |s| ==> prec(Key(s[i], byEmail), Key(s[j], byEmail))
  }

  /** The comparator puts neither key after the other. */
  predicate Tied(a: string, b: string, prec: (string, string) -> bool)
  {
    prec(a, b) && prec(b, a)
  }

  /** The users of `s` whose key compares equal to `key`, in their order in `s`. */
  function TiesWith(s: seq<User>, key: string, byEmail: bool, prec: (string, string) -> bool): seq<User>
    decreases |s|
  {
    if s == [] then []
    else (if Tied(Key(s[0], byEmail), key, prec) then [s[0]] else []) + TiesWith(s[1..], key, byEmail, prec)
  }

  lemma TiesWithCons(u: User, s: seq<User>, key: string, byEmail: bool, prec: (string, string) -> bool)
    ensures TiesWith([u] + s, key, byEmail, prec)
            == (if Tied(Key(u, byEmail), key, prec) then [u] else []) + TiesWith(s, key, byEmail, prec)
  {
    assert ([u] + s)[1..] == s;
  }

  /** A user whose key comes before every key of a sorted list can go in front of it. */
  lemma ConsSorted(u: User, s: seq<User>, byEmail: bool, prec: (string, string) -> bool)
    requires Sorted(s, byEmail, prec)
    requires forall j :: 0 <= j < |s| ==> prec(Key(u, byEmail), Key(s[j], byEmail))
    ensures Sorted([u] + s, byEmail, prec)
  {
    var r := [u] + s;
    forall i, j | 0 <= i < j < |r| ensures prec(Key(r[i], byEmail), Key(r[j], byEmail)) {
      assert r[j] == s[j - 1];
      if i > 0 {
        assert r[i] == s[i - 1];
      }
    }
  }

  /** Every user of `Insert(x, s)` is `x` or one of `s`. */
  lemma InsertMembers(x: User, s: seq<User>, byEmail: bool, prec: (string, string) -> bool, j: nat)
    requires j < |Insert(x, s, byEmail, prec)|
    ensures Insert(x, s, byEmail, prec)[j] == x || Insert(x, s, byEmail, prec)[j] in s
  {
    var r := Insert(x, s, byEmail, prec);
    assert r[j] in multiset(r);
  }

  lemma {:induction false} InsertSorted(x: User, s: seq<User>, byEmail: bool, prec: (string, string) -> bool)
    requires TotalPreorder(prec) && Sorted(s, byEmail, prec)
    ensures Sorted(Insert(x, s, byEmail, prec), byEmail, prec)
    decreases |s|
  {
    if s == [] {
      assert Insert(x, s, byEmail, prec) == [x];
    } else if prec(Key(x, byEmail), Key(s[0], byEmail)) {
      forall j | 0 <= j < |s| ensures prec(Key(x, byEmail), Key(s[j], byEmail)) {
        if j > 0 {
          assert prec(Key(s[0], byEmail), Key(s[j], byEmail));
        }
      }
      ConsSorted(x, s, byEmail, prec);
    } else {
      var s0 := s[0];
      var tail := Insert(x, s[1..], byEmail, prec);
      InsertSorted(x, s[1..], byEmail, prec);
      forall j | 0 <= j < |tail| ensures prec(Key(s0, byEmail), Key(tail[j], byEmail)) {
        InsertMembers(x, s[1..], byEmail, prec, j);
        if tail[j] != x {
          var m :| 0 <= m < |s[1..]| && s[1..][m] == tail[j];
          assert s[m + 1] == tail[j];
        }
      }
      ConsSorted(s0, tail, byEmail, prec);
    }
  }

  /** The sort leaves its users ordered by the comparator. */
  lemma {:induction false} SortBySorted(s: seq<User>, byEmail: bool, prec: (string, string) -> bool)
    requires TotalPreorder(prec)
    ensures Sorted(SortBy(s, byEmail, prec), byEmail, prec)
    decreases |s|
  {
    if s != [] {
      SortBySorted(s[1..], byEmail, prec);
      InsertSorted(s[0], SortBy(s[1..], byEmail, prec), byEmail, prec);
    }
  }

  lemma {:induction false} InsertStable(x: User, s: seq<User>, key: string, byEmail: bool, prec: (string, string) -> bool)
    requires TotalPreorder(prec)
    ensures TiesWith(Insert(x, s, byEmail, prec), key, byEmail, prec) == TiesWith([x] + s, key, byEmail, prec)
    decreases |s|
  {
    if s != [] && !prec(Key(x, byEmail), Key(s[0], byEmail)) {
      var s0, kx, k0 := s[0], Key(x, byEmail), Key(s[0], byEmail);
      var tail := Insert(x, s[1..], byEmail, prec);
      var tx := if Tied(kx, key, prec) then [x] else [];
      var t0 := if Tied(k0, key, prec) then [s0] else [];
      InsertStable(x, s[1..], key, byEmail, prec);
      TiesWithCons(s0, tail, key, byEmail, prec);
      TiesWithCons(x, s[1..], key, byEmail, prec);
      TiesWithCons(s0, s[1..], key, byEmail, prec);
      TiesWithCons(x, s, key, byEmail, prec);
      assert s == [s0] + s[1..];
      // x skipped s0, so the two cannot both tie with `key`
      assert Tied(kx, key, prec) && Tied(k0, key, prec) ==> prec(kx, k0);
      assert tx == [] || t0 == [];
      calc {
        TiesWith(Insert(x, s, byEmail, prec), key, byEmail, prec);
        TiesWith([s0] + tail, key, byEmail, prec);
        t0 + TiesWith([x] + s[1..], key, byEmail, prec);
        t0 + (tx + TiesWith(s[1..], key, byEmail, prec));
        { if tx == [] { assert tx + TiesWith(s[1..], key, byEmail, prec) == TiesWith(s[1..], key, byEmail, prec); }
          else { assert t0 + TiesWith(s[1..], key, byEmail, prec) == TiesWith(s[1..], key, byEmail, prec); } }
        tx + (t0 + TiesWith(s[1..], key, byEmail, prec));
        tx + TiesWith(s, key, byEmail, prec);
        TiesWith([x] + s, key, byEmail, prec);
      }
    }
  }

  /** The sort is stable: users whose keys compare equal keep their relative order. */
  lemma {:induction false} SortByStable(s: seq<User>, key: string, byEmail: bool, prec: (string, string) -> bool)
    requires TotalPreorder(prec)
    ensures TiesWith(SortBy(s, byEmail, prec), key, byEmail, prec) == TiesWith(s, key, byEmail, prec)
    decreases |s|
  {
    if s != [] {
      SortByStable(s[1..], key, byEmail, prec);
      InsertStable(s[0], SortBy(s[1..], byEmail, prec), key, byEmail, prec);
      TiesWithCons(s[0], SortBy(s[1..], byEmail, prec), key, byEmail, prec);
      TiesWithCons(s[0], s[1..], key, byEmail, prec);
      assert s == [s[0]] + s[1..];
    }
  }

  /**
   * `getUsers`, users-service.js:35-51: sorts by name or email; for any other field the comparator
   * throws, which happens only when the sort calls it, that is when there
   * are at least two users.
   */
  function ApplySort(list: seq<User>, req: SortRequest, le: (string, string) -> bool): (r: Result<seq<User>>)
    ensures r.Ok? ==> multiset(r.value) == multiset(list)
    ensures r.Err? <==> req.field != "name" && req.field != "email" && |list| >= 2
    ensures r.Err? ==> r.error == UnsupportedSortField(req.field)
    ensures req.field != "name" && req.field != "email" && |list| < 2 ==> r == Ok(list)
  {
    if req.field == "name" then Ok(SortBy(list, false, Comparator(le, req.descending)))
    else if req.field == "email" then Ok(SortBy(list, true, Comparator(le, req.descending)))
    else if |list| < 2 then Ok(list)
    else Err(UnsupportedSortField(req.field))
  }

  /**
   * Sorting by name or email with a consistent collation yields the users
   * ascending (or descending) by that field, stably.
   */
  lemma ApplySortOrders(list: seq<User>, req: SortRequest, le: (string, string) -> bool)
    requires TotalPreorder(le)
    requires req.field == "name" || req.field == "email"
    ensures ApplySort(list, req, le).Ok?
    ensures Sorted(ApplySort(list, req, le).value, ByEmail(req), Comparator(le, req.descending))
    ensures forall key :: TiesWith(ApplySort(list, req, le).value, key, ByEmail(req), Comparator(le, req.descending))
                          == TiesWith(list, key, ByEmail(req), Comparator(le, req.descending))
  {
    var prec := Comparator(le, req.descending);
    ComparatorIsPreorder(le, req.descending);
    SortBySorted(list, ByEmail(req), prec);
    forall key
      ensures TiesWith(SortBy(list, ByEmail(req), prec), key, ByEmail(req), prec) == TiesWith(list, key, ByEmail(req), prec)
    {
      SortByStable(list, key, ByEmail(req), prec);
    }
  }

  /** The users after the sort parameter is applied. */
  function ApplySortParam(list: seq<User>, sort: string, le: (string, string) -> bool): (r: Result<seq<User>>)
    ensures sort == "" ==> r == Ok(list)
    ensures r.Ok? ==> multiset(r.value) == multiset(list)
    ensures ParseSort(sort).Err? ==> r == Err(ParseSort(sort).error)
  {
    match ParseSort(sort)
    case Err(e) => Err(e)
    case Ok(None) => Ok(list)
    case Ok(Some(req)) => ApplySort(list, req, le)
  }

  /**
   * A sort parameter `name:order` or `email:order` with a valid order gives
   * the users ordered by that field in that direction, stably.
   */
  lemma SortParamOrders(list: seq<User>, field: string, order: string, tail: string,
                        le: (string, string) -> bool)
    requires TotalPreorder(le)
    requires field == "name" || field == "email"
    requires ':' !in order && (tail == [] || tail[0] == ':')
    requires LowerAscii(order) == "asc" || LowerAscii(order) == "desc"
    ensures ApplySortParam(list, field + ":" + order + tail, le).Ok?
    ensures Sorted(ApplySortParam(list, field + ":" + order + tail, le).value,
                   ByEmail(RequestOf(field, order)), Comparator(le, RequestOf(field, order).descending))
    ensures forall key :: TiesWith(ApplySortParam(list, field + ":" + order + tail, le).value, key,
                                   ByEmail(RequestOf(field, order)), Comparator(le, RequestOf(field, order).descending))
                          == TiesWith(list, key, ByEmail(RequestOf(field, order)),
                                      Comparator(le, RequestOf(field, order).descending))
  {
    var req := RequestOf(field, order);
    SortOrderAnyCase(field, order, tail);
    ApplySortOrders(list, req, le);
  }

  // ---------------------------------------------------------------------------
  // Pagination (`getUsers`, users-service.js:53-65) and the result record (users-service.js:67-73)

  function Min(a: int, b: int): int
  {
    if a <= b then a else b
  }

  /** What the listing shows of one user. */
  function View(u: User): UserView
  {
    UserView(u.id, u.name, u.email)
  }

  /** Each user of `s` as the listing shows it, in order. */
  function Project(s: seq<User>): (r: seq<UserView>)
    ensures |r| == |s|
    ensures forall k :: 0 <= k < |s| ==> r[k] == UserView(s[k].id, s[k].name, s[k].email)
    decreases |s|
  {
    if s == [] then [] else [View(s[0])] + Project(s[1..])
  }

  /**
   * The page the loop of `getUsers` (users-service.js:57-65) collects. Its first index is
   * `(pageNumber - 1) * pageSize`; when that is negative and the loop runs,
   * it reads a user that does not exist.
   */
  function PageOf(list: seq<User>, pageNumber: int, pageSize: int): (r: Result<seq<UserView>>)
    ensures r.Err? <==> pageSize > 0 && pageNumber < 1
    ensures r.Err? ==> r.error == UndefinedUser
    ensures r.Ok? ==> |r.value| <= if pageSize > 0 then pageSize else 0
    ensures r.Ok? && pageSize > 0 ==> (r.value == [] <==> (pageNumber - 1) * pageSize >= |list|)
    ensures r.Ok? ==> forall k :: 0 <= k < |r.value| ==>
              0 <= (pageNumber - 1) * pageSize + k < |list|
              && r.value[k] == View(list[(pageNumber - 1) * pageSize + k])
  {
    var start := (pageNumber - 1) * pageSize;
    var stop := Min(start + pageSize, |list|);
    if stop <= start then Ok([])
    else if start < 0 then Err(UndefinedUser)
    else Ok(Project(list[start..stop]))
  }

  /** The pagination loop, pushing one projected user per index. */
  method Paginate(list: seq<User>, pageNumber: int, pageSize: int) returns (r: Result<seq<UserView>>)
    ensures r == PageOf(list, pageNumber, pageSize)
  {
    var startIndex := (pageNumber - 1) * pageSize;
    var endIndex := startIndex + pageSize;
    var results: seq<UserView> := [];
    var i := startIndex;
    while i < endIndex && i < |list|
      invariant startIndex <= i
      invariant i != startIndex ==> 0 <= startIndex && i <= endIndex && i <= |list|
      invariant results == if i == startIndex then [] else Project(list[startIndex..i])
      decreases |list| - i
    {
      if i < 0 {
        return Err(UndefinedUser);
      }
      results := results + [View(list[i])];
      i := i + 1;
    }
    return Ok(results);
  }

  /** `Math.ceil(count / pageSize)`: the least whole number of pages holding `count` users. */
  function TotalPages(count: nat, pageSize: int): (r: PageTotal)
    ensures pageSize > 0 ==> r.Finite? && (r.pages - 1) * pageSize < count <= r.pages * pageSize
    ensures pageSize < 0 ==> r.Finite? && r.pages * pageSize <= count < (r.pages - 1) * pageSize
    ensures pageSize == 0 ==> r == if count == 0 then NaN else Infinity
  {
    if pageSize > 0 then Finite((count + pageSize - 1) / pageSize)
    else if pageSize < 0 then Finite(-(count / -pageSize))
    else if count == 0 then NaN
    else Infinity
  }

  /** `Project(a + b)` is `Project(a) + Project(b)`. */
  lemma {:induction false} ProjectAppend(a: seq<User>, b: seq<User>)
    ensures Project(a + b) == Project(a) + Project(b)
    decreases |a|
  {
    if a == [] {
      assert a + b == b;
    } else {
      assert (a + b)[0] == a[0];
      assert (a + b)[1..] == a[1..] + b;
      ProjectAppend(a[1..], b);
    }
  }

  /** Pages 1 to n of `list`, one after the other. */
  function PagesUpTo(list: seq<User>, pageSize: int, n: nat): seq<UserView>
    requires pageSize > 0
  {
    if n == 0 then [] else PagesUpTo(list, pageSize, n - 1) + PageOf(list, n, pageSize).value
  }

  lemma NextProduct(m: nat, pageSize: int)
    ensures (m + 1) * pageSize == m * pageSize + pageSize
    ensures ((m + 1) - 1) * pageSize == m * pageSize
  {
  }

  lemma ProductNonNegative(m: nat, pageSize: int)
    requires pageSize > 0
    ensures 0 <= m * pageSize
  {
  }

  /** Page m + 1 of a positive page size, as a window of the list. */
  lemma PageWindow(list: seq<User>, m: nat, pageSize: int)
    requires pageSize > 0
    ensures PageOf(list, m + 1, pageSize)
            == Ok(if m * pageSize < |list| then Project(list[m * pageSize..Min(m * pageSize + pageSize, |list|)]) else [])
  {
    NextProduct(m, pageSize);
    ProductNonNegative(m, pageSize);
    var start := m * pageSize;
    assert PageOf(list, m + 1, pageSize)
           == if Min(start + pageSize, |list|) <= start then Ok([])
              else Ok(Project(list[start..Min(start + pageSize, |list|)]));
  }

  /** The users before `a`, then those from `a` before `b`, are those before `b`. */
  lemma WindowsJoin(list: seq<User>, a: nat, b: int)
    requires a <= b
    ensures Project(list[..Min(a, |list|)])
              + (if a < |list| then Project(list[a..Min(b, |list|)]) else [])
            == Project(list[..Min(b, |list|)])
  {
    if a < |list| {
      assert list[..Min(b, |list|)] == list[..a] + list[a..Min(b, |list|)];
      ProjectAppend(list[..a], list[a..Min(b, |list|)]);
    } else {
      assert Min(a, |list|) == Min(b, |list|);
    }
  }

  /** The first n pages show exactly the first n * pageSize users, in order. */
  lemma {:induction false} PagesCover(list: seq<User>, pageSize: int, n: nat)
    requires pageSize > 0
    ensures PagesUpTo(list, pageSize, n) == Project(list[..Min(n * pageSize, |list|)])
  {
    if n > 0 {
      var m: nat := n - 1;
      PagesCover(list, pageSize, m);
      PageWindow(list, m, pageSize);
      NextProduct(m, pageSize);
      var a, b := m * pageSize, m * pageSize + pageSize;
      WindowsJoin(list, a, b);
      var page := if a < |list| then Project(list[a..Min(b, |list|)]) else [];
      assert PageOf(list, n, pageSize).value == page;
      assert PagesUpTo(list, pageSize, m) == Project(list[..Min(a, |list|)]);
      assert PagesUpTo(list, pageSize, n) == PagesUpTo(list, pageSize, m) + page;
    }
  }

  /**
   * With a positive page size, pages 1 to `total_pages` show every user once,
   * in order, and the page after them is empty.
   */
  lemma AllPagesCoverList(list: seq<User>, pageSize: int)
    requires pageSize > 0
    ensures TotalPages(|list|, pageSize).pages >= 0
    ensures PagesUpTo(list, pageSize, TotalPages(|list|, pageSize).pages) == Project(list)
    ensures PageOf(list, TotalPages(|list|, pageSize).pages + 1, pageSize) == Ok([])
  {
    var n := TotalPages(|list|, pageSize).pages;
    assert (n - 1) * pageSize < |list| <= n * pageSize;
    assert n == (|list| + pageSize - 1) / pageSize;
    PagesCover(list, pageSize, n);
    assert list[..|list|] == list;
  }

  /** The result of the whole query: search, sort, page and summary. */
  function Query(users: seq<User>, pageNumber: int, pageSize: int, search: string, sort: string,
                 le: (string, string) -> bool): (r: Result<UsersPage>)
    ensures r.Err? <==> ApplySortParam(Searched(users, search), sort, le).Err? || (pageSize > 0 && pageNumber < 1)
    // the count is that of the searched users, whatever page is asked for
    ensures r.Ok? ==> r.value.count == |Searched(users, search)|
    ensures r.Ok? ==> r.value.pageNumber == pageNumber && r.value.pageSize == pageSize
    ensures r.Ok? ==> r.value.totalPages == TotalPages(r.value.count, pageSize)
    // the results are one window of the sorted searched users; the order
    // itself is stated by SortParamOrders
    ensures r.Ok? ==>
              var list := ApplySortParam(Searched(users, search), sort, le).value;
              multiset(list) == multiset(Searched(users, search))
              && r.value.results == PageOf(list, pageNumber, pageSize).value
  {
    var filtered := Searched(users, search);
    match ApplySortParam(filtered, sort, le)
    case Err(e) => Err(e)
    case Ok(list) =>
      assert |list| == |multiset(list)| == |multiset(filtered)| == |filtered|;
      match PageOf(list, pageNumber, pageSize)
      case Err(e) => Err(e)
      case Ok(results) => Ok(UsersPage(|list|, pageNumber, pageSize, TotalPages(|list|, pageSize), results))
  }

  /** getUsers: the users come from the repository, already fetched. */
  method GetUsers(users: seq<User>, pageNumber: int, pageSize: int, search: string, sort: string,
                  le: (string, string) -> bool) returns (r: Result<UsersPage>)
    ensures r == Query(users, pageNumber, pageSize, search, sort, le)
  {
    var filteredUsers := users;
    if search != "" {
      filteredUsers := FilterUsers(users, FieldOf(search), NeedleOf(search));
    }
    var parsed := ParseSort(sort);
    if parsed.Err? {
      return Err(parsed.error);
    }
    if parsed.value.Some? {
      var sorted := ApplySort(filteredUsers, parsed.value.value, le);
      if sorted.Err? {
        return Err(sorted.error);
      }
      filteredUsers := sorted.value;
    }
    var totalCount := |filteredUsers|;
    var results := Paginate(filteredUsers, pageNumber, pageSize);
    if results.Err? {
      return Err(results.error);
    }
    return Ok(UsersPage(totalCount, pageNumber, pageSize, TotalPages(totalCount, pageSize), results.value));
  }
}
