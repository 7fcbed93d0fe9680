/** The four Header resolvers: `headerById` and `headers` (queries),
    `createHeader` (create-or-update) and `deleteHeader`, over an in-memory
    Header table. Every operation first rejects an anonymous caller; the
    queries and the update are restricted to the caller's own rows, while
    delete looks a row up by key alone. */
module HeaderSchema {
  import opened Text
  import opened HeaderQuery

  /** The caller of a resolver: an anonymous session or a logged-in user. */
  datatype Caller = Anonymous | User(uid: int)

  /** One value per message the resolvers raise. */
  datatype Error =
    | NotLoggedIn          // headerById
    | NotLoggedInBang      // headers, createHeader, deleteHeader
    | NotFoundOrNotOwned   // createHeader with an id the caller does not own
    | InvalidHeaderId      // deleteHeader with an unknown id

  function Message(e: Error): (m: string)
    ensures (e.NotLoggedIn? || e.NotLoggedInBang?) <==> StartsWith(m, "Not logged in")
  {
    match e
    case NotLoggedIn => "Not logged in"
    case NotLoggedInBang => "Not logged in!"
    case NotFoundOrNotOwned =>
      var m := "Header not found or not owned by the user";
      assert m[0] == 'H';
      assert m[..13][0] == m[0];
      m
    case InvalidHeaderId =>
      var m := "Invalid Header id!";
      assert m[..13][0] != "Not logged in"[0];
      m
  }

  datatype Result<T> = Ok(value: T) | Err(error: Error)

  /** The search term that lists the caller's rows without a name filter. */
  const Wildcard: string := "*"
  /** The wildcard listing is sliced to this many rows. */
  const WildcardLimit: nat := 10

  /** Python truthiness of the optional `id_header` argument: None and 0 are
      falsy, so both mean "create". */
  predicate Truthy(idHeader: Option<int>)
  {
    idHeader.Some? && idHeader.value != 0
  }

  /** The row under key `id` exists and belongs to user `uid`. */
  predicate Owns(table: map<int, Header>, uid: int, id: int)
  {
    id in table && table[id].postedBy == uid
  }

  class Store {
    /** The Header table, keyed by primary key. */
    var table: map<int, Header>
    /** The key the next created row receives; keys are never reused. */
    var nextId: int

    ghost predicate Valid()
      reads this
    {
      && nextId >= 1
      && KeysMatch(table)
      && forall k :: k in table ==> 1 <= k < nextId
    }

    constructor ()
      ensures Valid()
      ensures table == map[] && nextId == 1
    {
      table := map[];
      nextId := 1;
    }

    /** `headerById(idHeader)`: the caller's row under that key, or nothing.
        A missing key and a key owned by someone else both give `None`. */
    function HeaderById(caller: Caller, idHeader: int): (r: Result<Option<Header>>)
      reads this
      requires Valid()
      ensures caller.Anonymous? <==> r.Err?
      ensures caller.Anonymous? ==> r.error == NotLoggedIn
      ensures caller.User? ==>
        r.value == if Owns(table, caller.uid, idHeader) then Some(table[idHeader]) else None
    {
      if caller.Anonymous? then Err(NotLoggedIn)
      else
        var query := PostedByAndId(caller.uid, idHeader);
        FirstOfKeyQuery(table, query, 1, nextId, idHeader);
        Ok(First(Select(table, query, 1, nextId)))
    }

    /** `headers(search)`: the caller's rows, in key order. With the wildcard
        they are the (at most ten) rows with the lowest keys; with any other
        term they are all rows whose name contains the term, ignoring case. */
    function Headers(caller: Caller, search: string): (r: Result<seq<Header>>)
      reads this
      requires Valid()
      ensures caller.Anonymous? <==> r.Err?
      ensures caller.Anonymous? ==> r.error == NotLoggedInBang
      ensures r.Ok? ==> IdsIncreasing(r.value)
      ensures r.Ok? ==> forall h :: h in r.value ==>
        h.id in table && table[h.id] == h && h.postedBy == caller.uid
      ensures caller.User? && search == Wildcard ==>
        && |r.value| <= WildcardLimit
        && (|r.value| < WildcardLimit ==>
              forall k :: Owns(table, caller.uid, k) ==> table[k] in r.value)
        && (forall h, k :: h in r.value && Owns(table, caller.uid, k) && k < h.id ==>
              table[k] in r.value)
      ensures caller.User? && search != Wildcard ==>
        forall k :: k in table ==>
          (table[k] in r.value <==> table[k].postedBy == caller.uid && IContains(table[k].name, search))
    {
      if caller.Anonymous? then Err(NotLoggedInBang)
      else if search == Wildcard then
        var rows := Select(table, PostedBy(caller.uid), 1, nextId);
        SelectExact(table, PostedBy(caller.uid), 1, nextId);
        SelectInIdOrder(table, PostedBy(caller.uid), 1, nextId);
        var n := if |rows| < WildcardLimit then |rows| else WildcardLimit;
        PrefixKeepsLowest(rows, n);
        assert n < WildcardLimit ==> rows[..n] == rows;
        Ok(rows[..n])
      else
        var query := PostedByAndNameContains(caller.uid, search);
        SelectExact(table, query, 1, nextId);
        SelectInIdOrder(table, query, 1, nextId);
        Ok(Select(table, query, 1, nextId))
    }

    /** `createHeader(...)`: with a truthy `idHeader`, overwrite the seven
        fields of the caller's row under that key; otherwise insert a new row
        owned by the caller under a fresh key. Returns the stored row. */
    method Upsert(caller: Caller, name: string, description: string, imageUrl: string,
                  email: string, phoneNumber: string, location: string, github: string,
                  idHeader: Option<int>)
      returns (r: Result<Header>)
      requires Valid()
      modifies this
      ensures Valid()
      ensures caller.Anonymous? ==>
        r == Err(NotLoggedInBang) && table == old(table) && nextId == old(nextId)
      // create
      ensures caller.User? && !Truthy(idHeader) ==>
        && r == Ok(Header(old(nextId), name, description, imageUrl, email, phoneNumber,
                          location, github, caller.uid))
        && old(nextId) !in old(table)
        && table == old(table)[old(nextId) := r.value]
        && nextId == old(nextId) + 1
      // update of an owned row
      ensures caller.User? && Truthy(idHeader) && Owns(old(table), caller.uid, idHeader.value) ==>
        && r == Ok(Header(idHeader.value, name, description, imageUrl, email, phoneNumber,
                          location, github, old(table)[idHeader.value].postedBy))
        && table == old(table)[idHeader.value := r.value]
        && table.Keys == old(table).Keys
        && nextId == old(nextId)
      // update of a missing or foreign row
      ensures caller.User? && Truthy(idHeader) && !Owns(old(table), caller.uid, idHeader.value) ==>
        r == Err(NotFoundOrNotOwned) && table == old(table) && nextId == old(nextId)
      // what every call keeps
      ensures forall k :: k in old(table) ==> k in table && table[k].postedBy == old(table)[k].postedBy
      ensures r.Ok? ==> caller.User? && r.value.postedBy == caller.uid && table[r.value.id] == r.value
      ensures forall k :: k in old(table) && (r.Err? || k != r.value.id) ==> table[k] == old(table)[k]
    {
      if caller.Anonymous? {
        return Err(NotLoggedInBang);
      }
      var user := caller.uid;
      if Truthy(idHeader) {
        var query := PostedByAndId(user, idHeader.value);
        FirstOfKeyQuery(table, query, 1, nextId, idHeader.value);
        var currentHeader := First(Select(table, query, 1, nextId));
        if currentHeader.Some? {
          var updated := currentHeader.value.(
            name := name,
            description := description,
            imageUrl := imageUrl,
            email := email,
            phoneNumber := phoneNumber,
            location := location,
            github := github);
          table := table[updated.id := updated];
          return Ok(updated);
        } else {
          return Err(NotFoundOrNotOwned);
        }
      }
      var header := Header(nextId, name, description, imageUrl, email, phoneNumber,
                           location, github, user);
      table := table[header.id := header];
      nextId := nextId + 1;
      r := Ok(header);
    }

    /** `deleteHeader(idHeader)`: remove the row under that key, whoever owns
        it, and return the key. */
    method Delete(caller: Caller, idHeader: int) returns (r: Result<int>)
      requires Valid()
      modifies this
      ensures Valid()
      ensures nextId == old(nextId)
      ensures caller.Anonymous? ==> r == Err(NotLoggedInBang) && table == old(table)
      ensures caller.User? && idHeader in old(table) ==>
        r == Ok(idHeader) && table == old(table) - {idHeader}
      ensures caller.User? && idHeader !in old(table) ==>
        r == Err(InvalidHeaderId) && table == old(table)
      ensures r.Ok? ==> forall u :: HeaderById(User(u), idHeader) == Ok(None)
    {
      if caller.Anonymous? {
        return Err(NotLoggedInBang);
      }
      FirstOfKeyQuery(table, ById(idHeader), 1, nextId, idHeader);
      var currentHeader := First(Select(table, ById(idHeader), 1, nextId));
      if currentHeader.None? {
        return Err(InvalidHeaderId);
      }
      table := table - {currentHeader.value.id};
      r := Ok(idHeader);
    }
  }

  /** The tests' starting point: two cards of user `other`, then one card of
      user `u`. */
  method SeededStore(u: int, other: int) returns (store: Store)
    requires u != other
    ensures fresh(store) && store.Valid()
    ensures store.table.Keys == {1, 2, 3}
    ensures !Owns(store.table, u, 1) && !Owns(store.table, u, 2)
    ensures store.table[3] == Header(3, "John Doe", "d", "i", "e", "p", "l", "g", u)
  {
    store := new Store();
    var a := store.Upsert(User(other), "A", "", "", "", "", "", "", None);
    var b := store.Upsert(User(other), "B", "", "", "", "", "", "", None);
    var created := store.Upsert(User(u), "John Doe", "d", "i", "e", "p", "l", "g", None);
  }

  /** The wildcard listing of `u` holds exactly `u`'s one card, not the two
      cards of the other user. */
  method ListOwnCardOnly(u: int, other: int)
    requires u != other
  {
    var store := SeededStore(u, other);
    var all := store.Headers(User(u), Wildcard);
    assert forall i :: 0 <= i < |all.value| ==> all.value[i] in all.value;
    IncreasingRowsBound(all.value, 3, 4);
    assert store.table[3] in all.value;
    assert all.value == [store.table[3]];
    assert all.value[0].name == "John Doe";
  }

  /** `u` reads back its own card; a missing key and a foreign key both give
      nothing; updating a foreign card is refused and changes nothing. */
  method ReadOwnCardOnly(u: int, other: int)
    requires u != other
  {
    var store := SeededStore(u, other);
    var missing := store.HeaderById(User(u), 999);
    assert missing == Ok(None);
    var foreign := store.HeaderById(User(u), 1);
    assert foreign == missing;
    var mine := store.HeaderById(User(u), 3);
    assert mine == Ok(Some(store.table[3]));

    var before := store.table;
    var stolen := store.Upsert(User(u), "X", "", "", "", "", "", "", Some(1));
    assert stolen == Err(NotFoundOrNotOwned) && store.table == before;
  }

  /** Updating and deleting one card: the update keeps the key, an anonymous
      delete is refused, a delete removes the card, and a second delete of the
      same key fails. */
  method UpdateThenDelete(u: int)
  {
    var store := new Store();
    var created := store.Upsert(User(u), "John Doe", "d", "i", "e", "p", "l", "g", None);
    assert created.Ok? && created.value.id == 1;

    var updated := store.Upsert(User(u), "Updated", "d", "i", "e", "p", "l", "g", Some(1));
    assert updated.Ok? && updated.value.id == 1 && updated.value.name == "Updated";
    assert store.table.Keys == {1};

    var refused := store.Delete(Anonymous, 1);
    assert refused.Err? && StartsWith(Message(refused.error), "Not logged in");

    var deleted := store.Delete(User(u), 1);
    assert deleted == Ok(1);
    var gone := store.HeaderById(User(u), 1);
    assert gone == Ok(None);
    var again := store.Delete(User(u), 1);
    assert again == Err(InvalidHeaderId);
  }
}
