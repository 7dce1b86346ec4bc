# Tienda backend: authentication, cart and product paging in Dafny

This project models the request logic of a small online-shop backend (an
ASP.NET Core service) and proves properties of it:

- **Authentication** (`AuthController`). Register checks the input, rejects a
  taken user name, stores one new user with a password hash, and then issues a
  bearer token. Login is read-only: it checks the input and the password and
  issues a token. Token generation rejects a missing or empty key. It then
  doubles the key until its UTF-8 encoding has at least 64 bytes, and signs two
  claims (user id and user name) that expire one day after issuance.
- **Start-up** (`Program.cs`). It reads the configured key, expands it the same
  way, and fixes how every bearer token is checked: signature, no issuer or
  audience check, and lifetime with zero clock skew.
- **Cart** (`CartController`). It lists, adds, deletes by key and updates the
  quantity by key on the CartItems table.
- **Product paging** (`ProductsController.GetProducts`). It returns the total
  count, the number of pages and one skip/take page of the Products table.

The database is a set of in-memory tables. Each controller that changes a
table is a class whose fields are that table and the next value of its
identity column. Its methods change those fields and state the whole new
table. The source writes the key-doubling loop twice, in
Tienda/Controllers/AuthController.cs:116-119 and Tienda/Program.cs:14-17. The
model writes it once, as `SigningKey.ExpandKey`, and both the issuer and
start-up call it. The pure logic is written as functions, and the properties are lemmas
about those functions. Calls to code outside the model become parameters:
the password hasher (a pair of functions), the random salt, the clock
(`now`, in seconds) and the store's error messages.

Files and modules:

| file | module | models |
|---|---|---|
| models.dfy | `Models` | the User, CartItem and Product rows, `string.IsNullOrEmpty`, Option and Result |
| utf8.dfy | `Utf8` | `Encoding.UTF8.GetBytes` |
| decimal.dfy | `Decimal` | `int.ToString()` for the NameIdentifier claim, and parsing it back |
| signing_key.dfy | `SigningKey` | the key-doubling loop shared by the issuer and start-up |
| jwt.dfy | `Jwt` | tokens as records, issuing a token, the bearer check |
| startup.dfy | `Startup` | `Program.cs`: key check, key expansion, validation parameters |
| auth.dfy | `Auth` | `AuthController`: Register, Login, GenerateToken |
| cart.dfy | `Cart` | `CartController` |
| products.dfy | `Products` | `ProductsController.GetProducts` and `PagedResult<T>` |

## Model

| member | source | states |
|---|---|---|
| `Utf8.Encode` | Tienda/Controllers/AuthController.cs:116 | a string of n characters encodes to between n and 4n UTF-8 bytes |
| `Utf8.EncodeAppend` | Tienda/Program.cs:14-16 | the UTF-8 encoding of `s + t` is the encoding of `s` followed by that of `t`, so `tokenKey += tokenKey` doubles the byte count |
| `Decimal.IntToString` | Tienda/Controllers/AuthController.cs:126 | `user.Id.ToString()` is non-empty and starts with a minus sign exactly for a negative id |
| `Decimal.ParseIntToString` | Tienda/Controllers/AuthController.cs:126 | the NameIdentifier claim text `user.Id.ToString()` parses back to exactly `user.Id` |
| `Decimal.IntToStringInjective` | Tienda/Controllers/AuthController.cs:126 | two different user ids never give the same NameIdentifier claim |
| `SigningKey.Expanded` | Tienda/Controllers/AuthController.cs:116-119 | the expanded key has at least 64 UTF-8 bytes; a key that already has 64 is unchanged; a shorter key ends below 128 bytes |
| `SigningKey.ExpandKey` | Tienda/Controllers/AuthController.cs:116-119 | the doubling loop terminates for every non-empty key and leaves exactly `Expanded(key)` |
| `SigningKey.ExpandedIsFirstLongDoubling` | Tienda/Program.cs:14-17 | the loop stops at the first doubling that reaches 64 bytes; every earlier doubling is shorter |
| `SigningKey.DoubledIsRepeat` | Tienda/Program.cs:14-16 | after n turns of the loop the key is the configured key repeated 2^n times |
| `SigningKey.ExpandedIsRepetition` | Tienda/Program.cs:14-16 | the expanded key is the configured key repeated a power of two times |
| `SigningKey.EmptyKeyStaysEmpty` | Tienda/Program.cs:14-17 | with an empty key, every turn of the loop leaves it empty and below 64 bytes, so the loop never ends |
| `Jwt.FindClaim` | Tienda/Controllers/AuthController.cs:124-128 | finds the value of a claim of the given type exactly when the token has such a claim |
| `Jwt.Issue` | Tienda/Controllers/AuthController.cs:121-134 | an issued token has exactly two claims: its NameIdentifier reads back as the user's id and its Name is the user name; it expires one day after `now` and is signed with the UTF-8 bytes of the key |
| `Jwt.Validate` | Tienda/Program.cs:35-43 | the bearer check, signature first and lifetime next: it fails for the signature exactly on a key mismatch, as Expired exactly when the signature holds, the lifetime is checked and `now - skew` has passed expiry, and it succeeds, with the token's claims, exactly when no enabled check fails |
| `Startup.BearerParameters` | Tienda/Program.cs:35-43 | with these parameters every token is rejected for its signature unless it carries the key's UTF-8 bytes, otherwise rejected as Expired exactly when `now` is past its expiry (zero skew), and otherwise accepted with its claims; issuer and audience never reject it |
| `Startup.KeyAcceptedAsWritten` | Tienda/Program.cs:10-11 | the start-up guard as written rejects a missing key and accepts every key the token issuer accepts; of the keys the issuer rejects, it accepts exactly the empty one |
| `Startup.EmptyKeyHangsStartup` | Tienda/Program.cs:10-17 | the start-up guard accepts an empty key, and the loop condition stays true after any number of turns |
| `Startup.ConfigureAuthentication` | Tienda/Program.cs:10-17 | the corrected start-up of "## Findings" (the code rejects only a null key): it fails with InvalidOperationException exactly when the key is null or empty; otherwise it checks tokens against the expanded key, at least 64 bytes |
| `Startup.IssuedTokenAcceptedUntilExpiry` | Tienda/Program.cs:39-42 | an issued token is accepted with its claims while `now <= issuedAt + 1 day`, and rejected as Expired after that; issuer and audience never reject it |
| `Startup.OtherKeyRejected` | Tienda/Program.cs:37-38 | a token signed under other key bytes is rejected with InvalidSignature (byte equality standing in for HMAC key equivalence, see "## Left out") |
| `Startup.DoubledSecretSameKey` | Tienda/Program.cs:14-16 | a configured secret below 64 bytes and the same secret written twice are different, yet expand to the same signing key |
| `Auth.FindUsername` | Tienda/Controllers/AuthController.cs:39 | finds the first stored user whose name equals the given name exactly; finds none exactly when no user has that name |
| `Auth.Utf16Length` | Tienda/Models/User.cs:10 | the column width of a name counts UTF-16 code units: between one and two per character |
| `Auth.RegisterDecision` | Tienda/Controllers/AuthController.cs:34-53 | Register rejects exactly the requests with a null or empty field, then exactly the names already stored; of the free names, the store refuses exactly those longer than 100 UTF-16 code units, and inserts the rest |
| `Auth.LoginDecision` | Tienda/Controllers/AuthController.cs:74-89 | Login rejects null or empty fields; it authenticates only a stored user with that name whose hash verifies the password; with unique names, it authenticates if and only if such a user exists |
| `Auth.LoginResponse` | Tienda/Controllers/AuthController.cs:74-101 | Login answers 400 with the fixed message for missing fields and for bad credentials, 500 exactly when a user is authenticated but no key is configured, and success exactly when a user is authenticated and a key is configured; only a success carries a token and a name: the authenticated user's, under the expanded key of at least 64 bytes |
| `Auth.AuthController.GenerateToken` | Tienda/Controllers/AuthController.cs:105-143 | token generation fails, with the one wrapped message, exactly when the key is null or empty; otherwise it issues the user's token under the expanded key, at least 64 bytes, expiring one day after `now` |
| `Auth.AuthController.Register` | Tienda/Controllers/AuthController.cs:28-65 | missing fields and taken names give their 400 message with the table unchanged; a free name too long for its column gives 500 with the table unchanged; otherwise exactly one user is appended with the next id, the name and the password's hash; that user stays stored when token generation fails (500); every stored name stays unique and fits its column |
| `Auth.AuthController.Login` | Tienda/Controllers/AuthController.cs:68-103 | Login changes nothing; it answers 400 for missing fields, one shared 400 message for an unknown name or a wrong password, 500 when no key is configured, and otherwise a token and the name of the stored user |
| `Auth.RegisterTwice` | Tienda/Controllers/AuthController.cs:39-53 | after a registration inserts, the same request is a duplicate, and exactly one user with that name is stored |
| `Auth.RegisterKeepsUsernamesUnique` | Tienda/Controllers/AuthController.cs:39-53 | an inserting registration keeps user names unique in the table |
| `Auth.RegisterThenLogin` | Tienda/Controllers/AuthController.cs:45-53 | with a hasher whose hashes verify, the credentials just registered log in as the user just stored |
| `Auth.UnknownUserLikeWrongPassword` | Tienda/Controllers/AuthController.cs:79-89 | for any table, even one holding two users of one name, an unknown name and a wrong password get the identical answer |
| `Cart.IndexOf` | Tienda/Controllers/CartController.cs:38 | finds the position of the row with the given key; finds none exactly when no row has that key |
| `Cart.CartController.GetCart` | Tienda/Controllers/CartController.cs:20-25 | returns every stored row, in storage order, and changes nothing |
| `Cart.CartController.AddToCart` | Tienda/Controllers/CartController.cs:28-32 | for a body without a `product` object: appends exactly one new row with the next id, the body's product id and the body's unchecked quantity, with no merge; an explicit id or an unknown product id is a store failure that changes nothing |
| `Cart.CartController.DeleteCartItem` | Tienda/Controllers/CartController.cs:36-47 | an absent key gives NotFound with the table unchanged; a present key gives NoContent with that one row removed |
| `Cart.CartController.UpdateCartItem` | Tienda/Controllers/CartController.cs:50-59 | an absent key gives NotFound with the table unchanged; a present key gives NoContent with that row's quantity set to the body's |
| `Cart.DeleteRemovesExactlyOne` | Tienda/Controllers/CartController.cs:44-46 | deleting a present key removes exactly that row: the others keep their order, the table is one shorter, and a second delete finds nothing |
| `Cart.DeleteAbsent` | Tienda/Controllers/CartController.cs:38-42 | deleting a key no row has finds nothing |
| `Cart.UpdateChangesOnlyQuantity` | Tienda/Controllers/CartController.cs:56-58 | an update changes only the quantity of the row with that key; its id and product stay, and every other row stays |
| `Cart.UpdateIdempotent` | Tienda/Controllers/CartController.cs:56 | applying the same update twice yields the table that applying it once yields |
| `Products.CeilDiv` | Tienda/Controllers/ProductController.cs:26 | TotalPages is the least number of pages of `pageSize` items that hold `total` items |
| `Products.SkipTake` | Tienda/Controllers/ProductController.cs:28-31 | `Skip(n).Take(m)` returns at most m items, none when n is past the end, and item i equals item n + i of the table |
| `Products.GetProducts` | Tienda/Controllers/ProductController.cs:20-45 | a failing query gives 500 with "Error interno: " followed by its message; otherwise Total is the product count, Page and PageSize echo the request, TotalPages is the least page count that holds Total, and Items is that page's slice of the table, at most PageSize long |
| `Products.DefaultsArePageOneOfSix` | Tienda/Controllers/ProductController.cs:20 | omitted parameters mean page 1 with 6 items, that is, the first six products |
| `Products.PageIsSlice` | Tienda/Controllers/ProductController.cs:28-31 | Items is the contiguous run of the table that starts at `(page - 1) * pageSize` and has at most `pageSize` items |
| `Products.PageBeyondLastIsEmpty` | Tienda/Controllers/ProductController.cs:26-31 | every page after TotalPages is empty |
| `Products.PagesUpToIsPrefix` | Tienda/Controllers/ProductController.cs:28-31 | pages 1 to n, joined, are the first n × pageSize products, or the whole table if it is shorter |
| `Products.PagesReconstructStore` | Tienda/Controllers/ProductController.cs:26-31 | pages 1 to TotalPages, joined in order, give back the whole table |
| `Products.WrapInt32` | Tienda/Controllers/ProductController.cs:29 | 32-bit wrap-around: the result is a 32-bit value congruent to the input modulo 2^32, and it equals any input already in range |
| `Products.GetProductsAsWritten` | Tienda/Controllers/ProductController.cs:20-45 | with the offset computed in 32-bit arithmetic, the answer is a 500 exactly when the wrapped offset is negative; otherwise Total, Page and PageSize are as in the request and the table, TotalPages is the least page count that holds Total, and Items is the Skip/Take slice at the wrapped offset |
| `Products.AsWrittenAgreesWithoutOverflow` | Tienda/Controllers/ProductController.cs:28-31 | while `(page - 1) * pageSize` fits in an `int`, the as-written result equals `GetProducts` |
| `Products.WrappedOffsetRepeatsFirstPage` | Tienda/Controllers/ProductController.cs:29 | page 65537 with pageSize 65536 lies past TotalPages for every table an `int` can count, yet the as-written result is the non-empty first page |
| `Products.WrappedOffsetFailsRequest` | Tienda/Controllers/ProductController.cs:29 | page 3 with pageSize 2^30 wraps the offset to -2^31, so the as-written endpoint answers 500 where `GetProducts` gives an empty page |

## Left out

- Password hashing (BCrypt) is not modelled. The hasher is two function values. The one property assumed of them, `Sound` (every hash of a password verifies that password), is a precondition of the lemmas that need it. Nothing is assumed about a wrong password failing to verify, or about two hashes of one password differing.
- JWT serialisation and HMAC-SHA-256 are not modelled. A token is a record of its claims, its expiry and the key bytes it was signed with; these bytes stand for the signature, which checks out exactly when the keys are equal. Byte equality of keys stands in for HMAC key equivalence: real HMAC pads a key shorter than 64 bytes with zeros, so `Encode("a")` and `Encode("a\u0000")` would sign alike. The program only signs and checks with expanded keys of at least 64 bytes. Signature bytes, base64url, the `alg` header check and malformed token strings are out of scope.
- Time is whole seconds. `DateTime.UtcNow` is the parameter `now`. `AddDays(1)` is 86400 seconds, and the sub-second part of the expiry is not modelled.
- Auth.AuthController.Register: the model does not say what happens when two registrations of one name run at the same time. The model is sequential. The source's check-then-insert is not atomic, and the Users table declares no unique index on Username.
- Database behaviour is not modelled: async calls, `SaveChangesAsync`, change tracking, cascade delete on CartItem.Product, and collation. Names compare by exact, case-sensitive equality. Identity columns are a counter that starts at 1. Queries without `OrderBy` (FirstOrDefault, ToList, Skip/Take) use storage order.
- Cart.CartController.GetCart: the `Include(c => c.Product)` navigation is not returned. Rows carry the product id only.
- Cart.CartController.AddToCart: a store failure is a result value. In the source, the exception is not caught, so the framework answers 500.
- Cart.CartController.AddToCart: a body that carries a `product` object is not modelled. `CartItems.Add` marks that object as a new entity too. EF Core would then insert that product and point the row at it, or fail on the product's explicit id. The model's rows carry only a product id, and the Products table is a constant. A failed insert may also use up an identity value, so the next row's id can be higher than `nextId`.
- Pages and page sizes below 1 are not modelled. `GetProducts` requires both to be at least 1. With a page size of 0, `Math.Ceiling(total / 0.0)` has no meaningful value. A negative offset depends on the store.
- Products.CeilDiv: `Math.Ceiling` over `double` is modelled as exact integer ceiling division. This is exact for 32-bit operands, because a non-integral quotient lies at least 1/pageSize from the next integer, which is more than the rounding error of a double.
- Products.GetProductsAsWritten: the 500 for a negative wrapped offset assumes the store rejects a negative OFFSET. The store's message is a parameter.
- Authorization is not modelled, because the source has none. A `Failure` from `Jwt.Validate` means only that the request is not authenticated. No action in Tienda/Controllers requires authentication, so such a request still runs, without a signed-in user.
- Logging is not modelled. A null request body is not modelled: the framework rejects it before the action runs. `LoginRequest` is unused by the controllers.
- Auth.AuthController.Register: the `[StringLength(100)]` on `User.Username` is not checked by the endpoint, because `User` is not its request type. It only sizes the SQL Server column. The model takes a longer name to make the insert in `SaveChangesAsync` fail, which the catch answers with 500, and no row is stored. Two things are not modelled: the server's truncation error text, and an identity value that the failed insert may consume.
- Configured keys are strings of Unicode scalar values. A lone UTF-16 surrogate, which .NET encodes as three replacement bytes, cannot occur.
- `Decimal.IntToString` follows the invariant culture. User ids from the identity column are positive, so the culture's negative sign never matters.
- CORS, Swagger, HTTPS redirection, static files and middleware order are not modelled.
- A lost insert race is not reported as a duplicate user: the code has no such path, and the model is sequential.
- Token verification has no "malformed" or "unknown algorithm" outcome, because serialisation is not modelled.
- The 500 that token generation gives for a null or empty key (Tienda/Controllers/AuthController.cs:110-113) is reached only if the configuration changes after start-up. Start-up aborts on a null key and hangs on an empty one (first row of "## Findings"). The model keeps the controller's key as a parameter of its own, so this path is modelled.
- Empty passwords never reach the hasher: both endpoints reject them first.

## Findings

| source | as written | input that shows it | evidently intended | confidence | as-written member | corrected member |
|---|---|---|---|---|---|---|
| Tienda/Program.cs:10-17 | only a null key is rejected; an empty key reaches `while (UTF8(tokenKey).Length < 64) tokenKey += tokenKey`, which leaves `""` unchanged | `AppSettings:Token` set to `""` | reject an empty key as `GenerateToken` does (Tienda/Controllers/AuthController.cs:110) | high; not executed | `Startup.EmptyKeyHangsStartup` | `Startup.ConfigureAuthentication` |
| Tienda/Controllers/ProductController.cs:29 | `(page - 1) * pageSize` is computed in unchecked 32-bit `int` and wraps around | `page=65537&pageSize=65536` on a non-empty table: the offset 2^32 wraps to 0; also `page=3&pageSize=1073741824`: the offset 2^31 wraps to -2^31 and the request fails with 500 (`Products.WrappedOffsetFailsRequest`) | a page past TotalPages is empty | medium (assumes the default unchecked build); not executed | `Products.WrappedOffsetRepeatsFirstPage` | `Products.PageBeyondLastIsEmpty` |
