# Micro-marketplace backend: a verified model

This Dafny project models the backend of a small product marketplace:

- the product catalog: listing with search and pagination, and fetch, create, update and delete by id;
- the product document schema;
- each user's list of favorite products;
- the bearer-token authentication middleware;
- the request-body validation chains;
- the routers that compose these stages.

Everything is written as pure functions over immutable values. The product collection is a sequence of documents in their natural order, with unique ids. The users collection is a map from user id to user. Each operation returns its reply together with the collection after the request.

Foreign code is kept abstract:

- The validator library's `isEmail`, `isURL`, `isMongoId` and `normalizeEmail` are uninterpreted function fields of `Base.Library`.
- So is the document mapper's decision whether a string casts to an ObjectId (`castsToObjectId`), and the canonical lower-case spelling of the ObjectId it casts to (`canonicalId`). Every `findById` looks documents up by that spelling, and stored ids and favorites lists hold it.
- Token verification is a parameter `verify: string -> Verdict`.
- The clock (`now`) and the id a new document receives (`freshId`) are parameters.

Modules, one file each:

- `Base`: Option, Result, ids and the library oracles.
- `Text`: JavaScript's `trim`, the validator's length measure, ASCII case folding, substring search and first-occurrence `replace`.
- `ProductSchema`: the schema's casts, validators and messages.
- `Catalog`: the single-product handlers.
- `Listing`: the product list.
- `Accounts`: users.
- `Favorites`: the favorites handlers.
- `FavoritesWitness`: a concrete input on which the favorites add as written stores a duplicate.
- `Auth`: the middleware.
- `Validation`: the chains and the 400 gate. A reported failure records the field and the validator that failed; `Validator.Message` gives the exact text the reply carries.
- `Routes`: the pipeline of auth, then validation, then handler.

Two behaviours of the code that are easy to assume otherwise, and that the model follows:

- Search passes the term to the store as a regular expression, not as a literal substring. The model covers literal terms only; see "Left out".
- A token that is not yet valid (`nbf` in the future) is neither "Invalid token" nor "Token expired". It falls through to the generic 500.

The code also allows two pages of an unchanged catalog to share a product, because the sort key can tie. Listing.TiedTimestampsOverlapPages exhibits this. The model does not follow it: Listing.ListProducts fixes one admissible tie order, and Listing.PagesDisjoint proves its pages disjoint (see "Findings").

## Model

| member | source | states |
|---|---|---|
| Text.Trim | backend/src/models/Product.js:8 | the result is the input with only leading and trailing whitespace removed, and has none left at either end; a string already trimmed is returned unchanged |
| Text.TrimKeepsContent | backend/src/middleware/validation.js:21-22 | what trimming keeps is a contiguous piece of the input, and it is empty exactly when the input is blank, so `trim().notEmpty()` rejects exactly the all-whitespace values |
| Text.VisibleLength | backend/src/middleware/validation.js:24 | the length `isLength` measures is the number of code points less the occurrences of U+FE0E and U+FE0F |
| Text.ReplaceFirst | backend/src/middleware/authMiddleware.js:14 | when the input starts with the pattern, the result is the replacement followed by the rest of the input; without an occurrence the input is unchanged |
| ProductSchema.Message | backend/src/models/Product.js:7-22 | the message of a failed Number cast quotes the offending text (as written, without the runtime's escaping) |
| ProductSchema.MessagesIdentifyErrors | backend/src/models/Product.js:7-22 | two different failures of one body never share a message, so the reported messages tell which rules were broken |
| ProductSchema.Errors | backend/src/models/Product.js:5-23 | a body yields no schema failure exactly when the trimmed title and description are non-empty, the price is a number not below zero and the image is non-empty; no failure is listed twice, and there are at most four, one per field |
| ProductSchema.ErrorsExplained | backend/src/models/Product.js:5-23 | each failure kind is reported exactly when its rule is broken: title/description blank after trimming, price missing, not a number, or negative, image empty |
| ProductSchema.Check | backend/src/models/Product.js:5-23 | a body is accepted exactly when it meets the schema; the stored values then have every field present, title and description trimmed, image as given, and price at least zero |
| ProductSchema.StoredProductRechecks | backend/src/models/Product.js:8-18 | a stored product's fields pass the schema again unchanged, so the schema is idempotent on what it stores |
| Catalog.Find | backend/src/controllers/productController.js:49 | a lookup by id finds a document exactly when one with that id is stored, and what it finds is a stored document with that id |
| Catalog.ErrorMessages | backend/src/controllers/productController.js:85-87 | one message per schema failure: every broken rule's message is listed, every listed message is that of a broken rule, and the list is empty exactly for an acceptable body; no message is listed twice |
| Catalog.GetProductById | backend/src/controllers/productController.js:49-63 | 200 with the stored document exactly when the id casts and a document has its canonical spelling; an uncastable id and a missing document both answer 404 |
| Catalog.CreateProduct | backend/src/controllers/productController.js:69-90 | a body the schema rejects answers 400 with one message per failure and stores nothing; otherwise the document is appended with the fresh id, the schema's values, and both timestamps set to the clock; an id clash answers 500; unique ids and schema conformance are preserved |
| Catalog.UpdateProduct | backend/src/controllers/productController.js:96-122 | uncastable id gives 404; then a price that does not cast gives 500 (a bare cast error, not a validation error); then another schema failure gives 400; then a missing document gives 404; all with the store unchanged. On success only that document changes, its four fields replaced, createdAt kept and updatedAt set to the clock |
| Catalog.DeleteProduct | backend/src/controllers/productController.js:128-141 | deletes exactly when the id casts and its canonical spelling is stored; that document is gone and every other id finds what it found before; otherwise 404 with the store unchanged |
| Catalog.CreateThenGet | backend/src/controllers/productController.js:71-81 | after a successful create, fetching the new (canonically spelled) id returns the created document |
| Catalog.UpdateThenGet | backend/src/controllers/productController.js:98-111 | after a successful update, fetching that id returns the updated document and fetching an id of any other document returns what it returned before |
| Catalog.DeleteThenGet | backend/src/controllers/productController.js:128-134 | after a successful delete, fetching that id answers 404 and fetching an id of any other document is unaffected |
| Catalog.SameIdSameDocument | backend/src/controllers/productController.js:49 | in a store with unique ids, two stored documents with the same id are the same document |
| Favorites.Without | backend/src/controllers/favoriteController.js:68-70 | filtering out an id removes every occurrence of it, keeps all other entries with their multiplicities and relative order, and shortens the list by the number of occurrences |
| Favorites.Add | backend/src/controllers/favoriteController.js:27-40 | the corrected add: fails with product-not-found when the id does not cast or names no stored product, with already-in-favorites when its canonical spelling is listed; otherwise that spelling is appended at the end and earlier entries are untouched |
| Favorites.AddAsWritten | backend/src/controllers/favoriteController.js:27-40 | the add as written: the same product check, but already-in-favorites only when the raw request string is listed; success appends the canonical spelling |
| Favorites.AsWrittenAgreesOnCanonical | backend/src/controllers/favoriteController.js:33-39 | on a canonically spelled id the add as written and the corrected add give the same answer |
| Favorites.AsWrittenStoresDuplicate | backend/src/controllers/favoriteController.js:33-39 | when a listed product is added again under another spelling, the add as written succeeds and leaves the list with a duplicate, while the corrected add refuses |
| FavoritesWitness.UpperCaseReAddDuplicates | backend/src/controllers/favoriteController.js:27-39 | with favorites ["507f1f77bcf86cd799439011"], adding "507F1F77BCF86CD799439011" (accepted by isMongoId) succeeds as written and lists the product twice; the corrected add answers already-in-favorites |
| Favorites.Remove | backend/src/controllers/favoriteController.js:63-70 | fails with not-in-favorites exactly when the id is not listed; otherwise the id no longer occurs, the rest keep their order, and the length drops by the occurrence count |
| Favorites.AddKeepsNoDuplicates | backend/src/controllers/favoriteController.js:33-40 | a duplicate-free list stays duplicate-free after an add, whether it succeeds or fails |
| Favorites.RemoveKeepsNoDuplicates | backend/src/controllers/favoriteController.js:63-70 | a duplicate-free list stays duplicate-free after a remove, and a successful remove then shortens it by exactly one |
| Favorites.AddThenRemove | backend/src/controllers/favoriteController.js:39-70 | removing an id, as the list spells it, right after adding it gives back the original list |
| Favorites.Resolve | backend/src/controllers/favoriteController.js:8-9 | populating keeps stored order and returns stored products only, one per listed id at most; when every id resolves, the product ids are exactly the list |
| Favorites.ResolveCounts | backend/src/controllers/favoriteController.js:8-9 | populating keeps every id that has a product exactly as often as the list holds it, and drops every id that has none |
| Favorites.GetFavorites | backend/src/controllers/favoriteController.js:8-17 | lists stored products for the user's favorites in stored order, each id with a product as often as it is listed and ids without one dropped; a missing user answers 500 |
| Favorites.AddFavorite | backend/src/controllers/favoriteController.js:22-52 | with the corrected add: product check first (404), then user lookup (500), then membership of the canonical spelling (400), each leaving the users unchanged; success appends that spelling to that user's list only, answers "Product added to favorites", and keeps every list duplicate-free |
| Favorites.RemoveFavorite | backend/src/controllers/favoriteController.js:56-83 | not consulting the catalog, fails with 400 when the id is not listed and changes nothing; success removes it from that user's list only, answers "Product removed from favorites", and keeps every list duplicate-free |
| Favorites.RemoveAfterProductDeleted | backend/src/controllers/favoriteController.js:56-71 | after a product is deleted from the catalog, a user who listed it can still remove it successfully |
| Listing.QueryOf | backend/src/controllers/productController.js:7 | page defaults to 1, limit to 10 and an absent search to no filter; given values are kept |
| Listing.Skip | backend/src/controllers/productController.js:20 | the first page skips nothing, and the skip is negative exactly when the page is below 1 with a positive limit or above 1 with a negative one |
| Listing.Cap | backend/src/controllers/productController.js:26 | a zero limit means no limit; any other limit returns at most its absolute value, which is positive |
| Listing.Window | backend/src/controllers/productController.js:25-26 | skip then limit returns the contiguous run of the ordered documents that starts at the skip (cut at the end), with as many documents as the cap allows |
| Listing.Filter | backend/src/controllers/productController.js:10-17 | keeps exactly the documents whose title or description contains the term ignoring case; an empty term keeps everything; unique ids are preserved |
| Listing.SortNewestFirst | backend/src/controllers/productController.js:24 | the result is ordered by non-increasing createdAt and has the input's length and members |
| Listing.SortPermutes | backend/src/controllers/productController.js:24 | sorting is a permutation: the same documents with the same multiplicities |
| Listing.TotalPages | backend/src/controllers/productController.js:35 | for a positive limit, the least page count whose pages hold all matches ((n-1)*limit < total <= n*limit); for a negative limit the ceiling of the negative quotient; null for a zero limit |
| Listing.ListProducts | backend/src/controllers/productController.js:4-44 | fails with 500 exactly when the skip is negative; otherwise every returned document is stored and matches, currentPage is the page, totalProducts counts the same filter, hasMore is skip + returned < total, and a positive limit bounds the page size |
| Listing.PageIsRun | backend/src/controllers/productController.js:23-26 | a page is a contiguous run of the newest-first matching documents starting at the skip, so it is itself newest first |
| Listing.PageIsSlice | backend/src/controllers/productController.js:20-26 | for page >= 1 and limit >= 1 a page is exactly the slice [skip, skip + limit) of the ordered matches, cut at the end |
| Listing.DefaultQuery | backend/src/controllers/productController.js:7-20 | without parameters the first ten documents, newest first, are listed and every document is counted |
| Listing.PagesDisjoint | backend/src/controllers/productController.js:20-26 | for an unchanged catalog and a fixed limit, two different pages share no product id |
| Listing.HasMoreIffBeforeLastPage | backend/src/controllers/productController.js:35-37 | with page >= 1 and limit >= 1, hasMore holds exactly when the page is before totalPages |
| Listing.EmptySearchCountsAll | backend/src/controllers/productController.js:11-29 | with an empty search, totalProducts is the size of the catalog |
| Listing.SearchIgnoresTermCase | backend/src/controllers/productController.js:14-15 | lower-casing the search term does not change which documents match |
| Listing.OrderedIsAdmissible | backend/src/controllers/productController.js:23-24 | the order the listing uses is one the store may return for the newest-first sort |
| Listing.TiedTimestampsOverlapPages | backend/src/controllers/productController.js:24 | with two products created at the same instant, both orders are admissible, and under them page 1 and page 2 (limit 1) return the same product |
| Auth.TokenOf | backend/src/middleware/authMiddleware.js:14 | the token of a bearer header is what follows the 7-character "Bearer " prefix |
| Auth.TokenRoundTrip | backend/src/middleware/authMiddleware.js:9-14 | prefixing a token with "Bearer " and extracting it gives the token back |
| Auth.Authenticate | backend/src/middleware/authMiddleware.js:4-43 | no bearer header gives 401 "No token"; a malformed token 401 "Invalid token"; an expired one 401 "Token expired"; no id or no such user 401 "User not found"; a not-yet-valid token or an uncastable id 500; it proceeds with the stored user exactly when the token decodes to a castable id whose canonical spelling names an existing user |
| Auth.NoBearerIgnoresVerifierAndUsers | backend/src/middleware/authMiddleware.js:9-11 | without a bearer header the outcome is 401 and depends on neither the verifier nor the users |
| Auth.ValidTokenProceeds | backend/src/middleware/authMiddleware.js:17-30 | a token that verifies to the castable id of an existing user lets the request through with exactly that user |
| Validation.MessageIdentifiesValidator | backend/src/middleware/validation.js:19-99 | no two validators share a message, so the message in a reply names the validator that failed |
| Validation.Chain | backend/src/middleware/validation.js:20-25 | both validators of a field run: each failure is listed exactly when its validator fails, once, and the first validator's failure comes first |
| Validation.Decide | backend/src/middleware/validation.js:4-16 | the request proceeds with the sanitized body exactly when no validator failed; otherwise it is answered with every failure |
| Validation.ValidateRegister | backend/src/middleware/validation.js:19-42 | passes exactly when the trimmed name has at least 2 characters, the trimmed email is non-empty and valid, and the password has at least 6; passes the trimmed name and the normalized email on; a rejection lists each of the six messages exactly when its validator fails on the trimmed name, the trimmed email or the password as typed, one entry per failing validator and nothing else |
| Validation.RegisterGate | backend/src/middleware/validation.js:19-42 | on the values the validators see, passes exactly when the name has at least 2 characters, the email is non-empty and valid and the password has at least 6, passing the normalized email on; otherwise lists each of the six messages exactly when its validator fails, one entry per failing validator |
| Validation.BlankNameReportsTwice | backend/src/middleware/validation.js:20-25 | a blank name reports both the required and the length message: a chain does not stop at its first failure |
| Validation.ValidateLogin | backend/src/middleware/validation.js:45-59 | passes exactly when the trimmed email is non-empty and valid and the password is non-empty, with no length rule; a rejection lists "Email is required", "Please provide a valid email" and "Password is required" each exactly when its validator fails, once each and nothing else |
| Validation.RegisterAcceptedLogsIn | backend/src/middleware/validation.js:27-56 | a registration body that passes also passes login validation, with the same normalized email |
| Validation.PriceValidation | backend/src/middleware/validation.js:70-74 | the price passes exactly when it is a number not below zero; a blank price reports "Price is required" and "Price must be a positive number", in that order; a non-numeric or negative price reports only the second |
| Validation.ValidateProduct | backend/src/middleware/validation.js:62-91 | passes exactly when the trimmed title has 3 to 100 characters, the price is a number at least 0, the trimmed description has 10 to 500 characters and the trimmed image is a non-empty URL; the trimmed values are passed on; a rejection lists each of the eight messages exactly when its validator fails on the trimmed title, the price, the trimmed description or the trimmed image, one entry per failing validator and nothing else |
| Validation.ProductGate | backend/src/middleware/validation.js:62-91 | on the values the validators see, passes exactly when title, price, description and image meet their rules, passing those values on; otherwise lists each of the eight messages exactly when its validator fails, one entry per failing validator |
| Validation.BlankPriceReportsTwice | backend/src/middleware/validation.js:70-74 | a missing price reports both the required and the number message |
| Validation.ValidatedProductPassesSchema | backend/src/middleware/validation.js:62-91 | a product body that passes validation is accepted by the schema, and the stored values are exactly the sanitized ones |
| Validation.ValidateFavorite | backend/src/middleware/validation.js:94-102 | passes exactly when the product id is non-empty and has the ObjectId format; the id is passed on unchanged; a rejection lists "Product ID is required" exactly when the id is empty and "Invalid product ID" exactly when it is not an ObjectId, once each |
| Routes.Handle | backend/src/routes/productRoutes.js:14-20 | public reads never authenticate and change nothing; a protected request is refused by authentication exactly when the middleware denies it; refusals by authentication or validation change nothing; unique ids and the database invariant (valid products, duplicate-free favorites under the corrected add) are preserved |
| Routes.Protected | backend/src/routes/favoriteRoutes.js:12-14 | the stage after authentication never answers with an authentication error, leaves the database alone on a validation failure, and preserves the database invariant (duplicate-free favorites under the corrected add) |
| Routes.NoTokenNoChange | backend/src/routes/productRoutes.js:18-20 | a protected request without a bearer header answers 401 and changes nothing, whatever its body |
| Routes.AuthBeforeValidation | backend/src/routes/productRoutes.js:18 | authentication runs before validation: an unauthenticated create is answered by authentication, never with 400 |
| Routes.InvalidProductBodyRejected | backend/src/routes/productRoutes.js:18-19 | an authenticated create or update with an invalid body answers 400 with the validation errors and leaves the store alone |
| Routes.ValidatedCreateNeverSchemaInvalid | backend/src/routes/productRoutes.js:18 | behind the validation gate a create answers 201, or 500 on an id clash, never a schema 400 |
| Routes.AuthenticatedCreateReachesStage | backend/src/routes/productRoutes.js:18 | an authenticated create reaches the validation-then-create stage |
| Routes.RemoveFavoriteUnvalidated | backend/src/routes/favoriteRoutes.js:14 | an authenticated favorite removal reaches the handler with no validation step, so an id not in the list answers 400 "Product not in favorites" |
| Routes.AuthenticatedFavoritesListed | backend/src/routes/favoriteRoutes.js:12 | an authenticated favorites listing always succeeds, because authentication already found the user |

## Left out

- Search by regular expression: the term reaches the store as a pattern. The model treats it as a literal substring, so terms with metacharacters (`.`, `*`, `(`, ...) are not modelled. Case folding is ASCII only.
- Query-string coercion: `page` and `limit` arrive as strings and are coerced by arithmetic and `parseInt`. The model takes them as the integers they spell, so non-numeric or fractional values (`NaN`, `"1.5"`) are not modelled.
- Listing.Window: a negative limit is modelled as returning at most its absolute value, without the store's single-batch cursor detail.
- JSON value shapes: string body fields are strings, and an absent one reads as "". Arrays, objects and numbers in string fields are not modelled.
- Numeric grammars: `PriceField` assumes that the validator's `isFloat` and the mapper's Number cast agree on which texts are numbers.
- Store and runtime failures (network, disk, `save()` errors) that answer 500 are not modelled. Only the duplicate fresh id on create is.
- Concurrency: the favorites handlers read the user and then save it. Interleaved requests are out of scope; each request is atomic here.
- Token signing, the signature and expiry checks, and a non-string `id` claim: the verifier is a parameter returning a `Verdict`.
- Password hashing and the register/login handlers: the auth controller and the User model are not part of this model. Only their validation chains are.
- ObjectId spellings: the mapper's cast and canonical spelling are the oracles `castsToObjectId` and `canonicalId`; which strings cast (24 hexadecimal digits of either case, 12-byte strings) is not spelled out.
- Routes.Handle: the database invariant includes duplicate-free favorites only because the model's add is the corrected one (Favorites.Add). The add as written can store a duplicate (see "Findings"), so for the code as written Handle does not promise that part of the invariant.
- Routes.Protected: the same applies; its preserved invariant relies on the corrected add.
- Catalog.UpdateProduct: the mapper drops absent fields from an update, so a partial body would keep stored values. The model reads absent fields as "" and so rejects such a body. Through the routes this cannot be observed, because validation rejects blank fields first.
- ProductSchema.Errors: the order of schema messages is assumed to be the schema's path order.
- Favorites.RemoveFavorite: membership and the filter compare the raw request string with the stored canonical spellings, as the code does, so a removal under a non-canonical spelling answers 400 "Product not in favorites". The handler's catch for a cast error cannot be reached, because nothing in it casts the request id.
- Projection and populate details (`select("favorites")`) are not modelled. Only the list of populated products is.
- Timestamps are abstract integers from the clock parameter. Date formatting is not modelled.
- Favorites.AddFavorite: models the corrected add, which checks the canonical spelling of the id. The handler as written checks the raw request string and can store a duplicate (see "Findings"), so for the code as written it does not keep lists duplicate-free.
- ProductSchema.Message: the mapper formats the offending price text with Node's `util.inspect`, which escapes backslashes, newlines and other control characters and may switch quote style. The model quotes the text as written, so for such texts the source's cast message differs from the model's and need not contain the text.
- Favorites.GetFavorites and Favorites.AddFavorite: a user deleted between authentication and the handler gives 500. Outside that race it cannot happen, as Routes.AuthenticatedFavoritesListed shows.

## Findings

| source | as written | input that shows it | evidently intended | confidence | as-written member | corrected member |
|---|---|---|---|---|---|---|
| backend/src/controllers/productController.js:23-26 | the listing sorts on `createdAt` alone. The store returns documents with equal sort keys in no fixed order, and two requests need not agree | two products created in the same instant (as a bulk seed insert produces), limit 1: one request's page 1 and the next request's page 2 can both be the same product, and the other is never shown | consecutive pages of an unchanged catalog are disjoint and together list every match once | not executed; medium (depends on the store's tie order) | Listing.TiedTimestampsOverlapPages | Listing.PagesDisjoint |
| backend/src/controllers/favoriteController.js:33-39 | the duplicate check `user.favorites.includes(productId)` compares the raw request string with the stored ObjectIds' lower-case spellings, while `findById` and `push` cast it | favorites ["507f1f77bcf86cd799439011"], then POST {productId: "507F1F77BCF86CD799439011"}: isMongoId accepts it, findById finds the product, the check misses, and the push stores the same ObjectId a second time (200) | an already listed product is refused with 400 "Product already in favorites" whatever the spelling of its id | not executed; high (depends on the array's `includes` comparing with `==`) | FavoritesWitness.UpperCaseReAddDuplicates | Favorites.AddKeepsNoDuplicates |

The model's listing uses Listing.SortNewestFirst, a stable sort under which ties keep store order. That is a total, fixed order: ties are broken by store order. Listing.OrderedIsAdmissible shows that it is one of the orders the store may return. Listing.PagesDisjoint proves pages disjoint under it.

The model's favorites add (Favorites.Add) decides membership on the canonical spelling, and Favorites.AddKeepsNoDuplicates proves that it keeps every list duplicate-free. Favorites.AddAsWritten is the handler as written, used only to exhibit the duplicate.
