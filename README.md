# Header resolvers: an ownership-scoped profile-card table

This project models the Header resource of a small GraphQL service. A Header
is a profile card with seven free-text fields (name, description, image URL,
email, phone number, location, GitHub link). Each Header is owned by the user
who created it. The service has four resolvers:

- `headerById(idHeader)` returns the caller's card under that key, or nothing.
- `headers(search)` lists the caller's cards. The wildcard `"*"` gives the first ten. Any other term gives every card whose name contains the term, ignoring case.
- `createHeader(...)` is one create-or-update operation. A truthy `idHeader` updates the caller's own card. A missing or zero id creates a new card.
- `deleteHeader(idHeader)` removes a card by key. It does not check who owns the card.

Every resolver first rejects an anonymous caller.

The table is a class `HeaderSchema.Store`. It holds a `map<int, Header>` keyed by
primary key and a `nextId` counter. The two queries are functions that read the
store. The two mutations are methods that modify it.

## Files

- `text.dfy` (module `Text`): case-insensitive substring matching. This is the meaning given to the ORM's `name__icontains`: ASCII lower-casing of both sides, then a contiguous-substring test.
- `header_query.dfy` (module `HeaderQuery`): the Header row and the `Q(...)` filters the resolvers build. It also has the ORM calls `.filter(...)` as `Select` (a scan in primary-key order), `.first()` as `First`, and `[:n]` as a sequence prefix, with lemmas about each.
- `header_schema.dfy` (module `HeaderSchema`): the caller, the error values and their messages, the `Store` class with the four resolvers, and three client methods (`ListOwnCardOnly`, `ReadOwnCardOnly`, `UpdateThenDelete`). These follow the tests' create, list, read, update and delete sequence and derive each result from the resolvers' contracts alone.

## Design decisions

- A caller is `Anonymous` or `User(uid)`. This is an explicit parameter of every operation, standing in for the request context's user.
- There is one error value per message: `NotLoggedIn` for "Not logged in", raised by `headerById`, and `NotLoggedInBang` for "Not logged in!", raised by the other three. `NotFoundOrNotOwned` is "Header not found or not owned by the user". `InvalidHeaderId` is "Invalid Header id!".
- Query order is primary-key order. The ORM's `.first()` on an unordered query set orders by primary key. The wildcard slice `[:10]` has no ordering in the source; the model fixes it to key order.
- Keys come from a counter starting at 1 and are never reused, as with an auto-increment primary key.
- `createHeader` tests `if id_header:`. So `None` and `0` both create a new card, while any other id, including a negative one, takes the update path. The model follows the code here. A plain "id supplied or not" reading would send `0` to the update path.
- `deleteHeader` looks the row up by key only. Any logged-in user can delete any card. The model keeps this behaviour as written. Ownership matters only for `headerById`, `headers` and the update path of `createHeader`.

## Model

| member | source | states |
|---|---|---|
| `HeaderSchema.Store.HeaderById` | header/schema.py:19-32 | An anonymous caller gets "Not logged in". A logged-in caller gets the row under `idHeader` exactly when it exists and they own it. Otherwise they get `None`, the same value whether the key is missing or owned by someone else. |
| `HeaderSchema.Store.Headers` | header/schema.py:34-53 | An anonymous caller gets "Not logged in!". Results are always caller-owned rows of the table, in strictly increasing key order. For `"*"`: at most ten rows. If fewer than ten are returned, every owned row is among them. Any owned row with a smaller key than a returned row is also returned, so the result is the owned rows with the lowest keys. For any other term: an owned row is returned if and only if its name contains the term, ignoring case, with no cap. |
| `HeaderSchema.Store.Upsert` | header/schema.py:78-138 | Anonymous: "Not logged in!" and the table and counter are unchanged. Falsy id: a new row under the old counter value, which was not a key before. It has the seven supplied fields and the caller as owner. Every earlier row is kept, and the counter advances. Truthy id of an owned row: that row's seven fields are replaced, its key and owner are kept, the key set is unchanged, and the new row is returned. Truthy id of a missing or foreign row: "Header not found or not owned by the user", nothing changes. Every call keeps every existing key and every row's owner. |
| `HeaderSchema.Store.Delete` | header/schema.py:148-168 | Anonymous: "Not logged in!" and nothing changes. Existing key, whoever owns it: exactly that key is removed, the given id is returned, and afterwards `HeaderById` finds nothing under it for any user. Missing key: "Invalid Header id!" and nothing changes. |
| `HeaderSchema.Message` | header/tests.py:172-179 | An error's message contains the prefix "Not logged in" exactly when the error is one of the two not-logged-in errors. |
| `HeaderQuery.SelectExact` | header/schema.py:28-32 | A filtered query over a key range returns a row if and only if the row is stored under its own key in that range and the filter admits it. |
| `HeaderQuery.SelectInIdOrder` | header/schema.py:32 | A filtered query lists rows in strictly increasing key order, all inside its range, so no row appears twice. |
| `HeaderQuery.FirstOfKeyQuery` | header/schema.py:157 | `.first()` of a query whose filter pins the key (`id=…`, optionally with `posted_by=…`) is the row under that key when it is in range and admitted, and nothing otherwise. |
| `HeaderQuery.PrefixKeepsLowest` | header/schema.py:47 | The slice `[:n]` of a key-ordered result keeps the rows with the lowest keys: any row of the result with a smaller key than a kept row is kept too. |
| `HeaderQuery.IncreasingRowsBound` | header/tests.py:133-135 | Rows in strictly increasing key order with keys in `[lo, hi)` number at most `hi - lo`. `ListOwnCardOnly` uses this to conclude that the wildcard listing holds exactly the one card its user created. |
| `HeaderQuery.First` | header/schema.py:32 | `.first()` is empty exactly on an empty result, and otherwise returns a member of it. |
| `Text.Lowered` | header/schema.py:51 | Lower-casing keeps the length and maps each character through ASCII lower-casing. |
| `Text.ContainsIff` | header/schema.py:51 | The left-to-right containment scan holds if and only if the term occurs at some offset of the string. |
| `Text.IContainsIff` | header/schema.py:51 | `icontains` holds if and only if some window of the name equals the term character by character, up to ASCII case. |
| `Text.EmptyTermMatchesAll` | header/schema.py:49-53 | The empty search term matches every name. So `headers("")` lists all of the caller's rows, with no cap. |

## Left out

- GraphQL plumbing is not modelled: `HeaderType`, the `graphene` argument declarations, the `Mutation` registration and the schema object (header/schema.py:9-17, 57-76, 143-146, 172-178). The model treats arguments as already decoded values.
- The `print` calls are left out. They only write to the server log.
- ORM persistence is not modelled. `.save()` and `.delete()` are assignments to the in-memory map. The row object `currentHeader` is updated as a datatype value written back under its key, so object identity and aliasing of ORM instances are not modelled.
- Database collation is not modelled. `icontains` is ASCII-only case folding; non-ASCII case folding, which depends on the database, is not captured.
- Null field values are not modelled. The seven fields are plain strings, although GraphQL would allow `null` for them.
- A `search` of `None` (the Python default, header/schema.py:34) is not modelled. The ORM rejects `None` in an `icontains` lookup, so `search` is always a string here.
- A null `id_header` for `headerById` and `deleteHeader` is not modelled. These ids are plain integers.
- GraphQL's 32-bit `Int` range is not modelled; ids are unbounded integers.
- Authentication, token issuance and the `users` schema are not modelled. The caller's identity is an input.
- Concurrency is not modelled. This layer defines no locking, so the model is sequential, and a racing update and delete of the same row is outside it.
- header/tests.py is used only as evidence for properties, not modelled as code. The client methods follow its scenario. Its update step passes the id explicitly, which the test's mutation string does not do.
