/** The routers: which requests are public, and for protected ones the
    order authentication, then body validation, then the handler. Each
    stage can answer the request and stop the pipeline. */
module Routes {
  import opened Base
  import opened ProductSchema
  import opened Accounts
  import Auth
  import Validation
  import Catalog
  import Favorites
  import Listing

  /** The two collections a request can read or change. */
  datatype Db = Db(products: Catalog.Store, users: Users)

  /** The database invariant: unique, schema-conforming products and
      duplicate-free favorites lists. */
  predicate DbValid(db: Db) {
    Catalog.Valid(db.products) && Favorites.AllNoDuplicates(db.users)
  }

  /** What the surroundings supply to a request: the library checks, the
      token verifier, the id a new document would get, and the clock. */
  datatype Env = Env(lib: Library, verify: string -> Auth.Verdict, freshId: Id, now: int)

  /** The routes, with the Authorization header (if any) of protected ones. */
  datatype Request =
    | ListProducts(query: Listing.Query)
    | GetProduct(id: string)
    | CreateProduct(header: Option<string>, body: ProductFields)
    | UpdateProduct(header: Option<string>, id: string, body: ProductFields)
    | DeleteProduct(header: Option<string>, id: string)
    | GetFavorites(header: Option<string>)
    | AddFavorite(header: Option<string>, favorite: Validation.FavoriteBody)
    | RemoveFavorite(header: Option<string>, productId: string)
  {
    /** Every route except the two product reads requires authentication. */
    predicate Protected() {
      !ListProducts? && !GetProduct?
    }
  }

  /** The answer, by the stage that gave it. */
  datatype Response =
    | AuthFailed(authError: Auth.AuthError)
    | ValidationFailed(errors: seq<Validation.FieldError>)
    | ListingReply(listing: Listing.ListReply)
    | ProductReply(product: Catalog.Reply)
    | FavoriteReply(favorite: Favorites.Reply)
  {
    function Status(): int {
      match this
      case AuthFailed(e) => e.Status()
      case ValidationFailed(_) => 400
      case ListingReply(l) => l.Status()
      case ProductReply(p) => p.Status()
      case FavoriteReply(f) => f.Status()
    }
  }

  datatype Exchange = Exchange(response: Response, db: Db)

  /** The handler answers; the products change as the step says. */
  function WithProducts(db: Db, step: Catalog.Step): (r: Exchange)
    ensures r.db.users == db.users && r.db.products == step.store
    ensures r.response == ProductReply(step.reply)
  {
    Exchange(ProductReply(step.reply), db.(products := step.store))
  }

  /** The handler answers; the users change as the step says. */
  function WithUsers(db: Db, step: Favorites.Step): (r: Exchange)
    ensures r.db.products == db.products && r.db.users == step.users
    ensures r.response == FavoriteReply(step.reply)
  {
    Exchange(FavoriteReply(step.reply), db.(users := step.users))
  }

  /** The create handler on a body that passed validation. */
  function CreateHandler(env: Env, db: Db, clean: ProductFields): (r: Exchange)
    ensures r.response.ProductReply? && r.db.users == db.users
    ensures Catalog.UniqueIds(db.products) ==> Catalog.UniqueIds(r.db.products)
    ensures Catalog.Valid(db.products) ==> Catalog.Valid(r.db.products)
  {
    WithProducts(db, Catalog.CreateProduct(db.products, clean, env.freshId, env.now))
  }

  /** The update handler on a body that passed validation. */
  function UpdateHandler(env: Env, db: Db, id: string, clean: ProductFields): (r: Exchange)
    requires Catalog.UniqueIds(db.products)
    ensures r.response.ProductReply? && r.db.users == db.users
    ensures Catalog.UniqueIds(r.db.products)
    ensures Catalog.Valid(db.products) ==> Catalog.Valid(r.db.products)
  {
    var step := Catalog.UpdateProduct(env.lib, db.products, id, clean, env.now);
    assert Catalog.UniqueIds(step.store);
    WithProducts(db, step)
  }

  /** POST /products after authentication, given the product validation
      chain's verdict: its failures, or the create handler on the sanitized
      body. */
  function CreateStage(env: Env, db: Db, gate: Validation.Gate<ProductFields>): (r: Exchange)
    ensures !r.response.AuthFailed?
    ensures r.response.ValidationFailed? ==> r.db == db
    ensures r.db.users == db.users
    ensures Catalog.UniqueIds(db.products) ==> Catalog.UniqueIds(r.db.products)
    ensures Catalog.Valid(db.products) ==> Catalog.Valid(r.db.products)
  {
    match gate
    case Reject(errs) => Exchange(ValidationFailed(errs), db)
    case Pass(clean) => CreateHandler(env, db, clean)
  }

  /** PUT /products/:id after authentication, given the validation verdict. */
  function UpdateStage(env: Env, db: Db, id: string, gate: Validation.Gate<ProductFields>): (r: Exchange)
    requires Catalog.UniqueIds(db.products)
    ensures !r.response.AuthFailed?
    ensures r.response.ValidationFailed? ==> r.db == db
    ensures r.db.users == db.users
    ensures Catalog.UniqueIds(r.db.products)
    ensures Catalog.Valid(db.products) ==> Catalog.Valid(r.db.products)
  {
    match gate
    case Reject(errs) => Exchange(ValidationFailed(errs), db)
    case Pass(clean) => UpdateHandler(env, db, id, clean)
  }

  /** POST /favorites after authentication, given the favorite validation
      chain's verdict. */
  function AddFavoriteStage(env: Env, db: Db, uid: Id, gate: Validation.Gate<Validation.FavoriteBody>): (r: Exchange)
    ensures !r.response.AuthFailed?
    ensures r.response.ValidationFailed? ==> r.db == db
    ensures r.db.products == db.products
    ensures Favorites.AllNoDuplicates(db.users) ==> Favorites.AllNoDuplicates(r.db.users)
  {
    match gate
    case Reject(errs) => Exchange(ValidationFailed(errs), db)
    case Pass(clean) => WithUsers(db, Favorites.AddFavorite(env.lib, db.products, db.users, uid, clean.productId))
  }

  /** The handler stage of a protected route, for the authenticated user `uid`. */
  function Protected(env: Env, db: Db, req: Request, uid: Id): (r: Exchange)
    requires req.Protected() && Catalog.UniqueIds(db.products)
    ensures !r.response.AuthFailed?
    ensures r.response.ValidationFailed? ==> r.db == db
    ensures Catalog.UniqueIds(r.db.products)
    ensures DbValid(db) ==> DbValid(r.db)
  {
    match req
    case CreateProduct(_, body) => CreateStage(env, db, Validation.ValidateProduct(env.lib, body))
    case UpdateProduct(_, id, body) => UpdateStage(env, db, id, Validation.ValidateProduct(env.lib, body))
    case DeleteProduct(_, id) =>
      var step := Catalog.DeleteProduct(env.lib, db.products, id);
      assert Catalog.UniqueIds(step.store);
      WithProducts(db, step)
    case GetFavorites(_) => Exchange(FavoriteReply(Favorites.GetFavorites(db.products, db.users, uid)), db)
    case AddFavorite(_, favorite) => AddFavoriteStage(env, db, uid, Validation.ValidateFavorite(env.lib, favorite))
    case RemoveFavorite(_, productId) => WithUsers(db, Favorites.RemoveFavorite(db.users, uid, productId))
  }

  /** The Authorization header of a protected request. */
  function HeaderOf(req: Request): Option<string>
    requires req.Protected()
  {
    req.header
  }

  /** One request against the database. Public routes go straight to their
      handler; protected routes pass authentication first. */
  function Handle(env: Env, db: Db, req: Request): (r: Exchange)
    requires Catalog.UniqueIds(db.products)
    ensures !req.Protected() ==> r.db == db && !r.response.AuthFailed? && !r.response.ValidationFailed?
    ensures r.response.AuthFailed? <==>
      req.Protected() && Auth.Authenticate(env.lib, HeaderOf(req), env.verify, db.users).Denied?
    ensures r.response.AuthFailed? || r.response.ValidationFailed? ==> r.db == db
    ensures Catalog.UniqueIds(r.db.products)
    ensures DbValid(db) ==> DbValid(r.db)
  {
    match req
    case ListProducts(q) => Exchange(ListingReply(Listing.ListProducts(db.products, q)), db)
    case GetProduct(id) => Exchange(ProductReply(Catalog.GetProductById(env.lib, db.products, id)), db)
    case _ =>
      match Auth.Authenticate(env.lib, HeaderOf(req), env.verify, db.users)
      case Denied(e) => Exchange(AuthFailed(e), db)
      case Proceed(uid, _) => Protected(env, db, req, uid)
  }

  /** A protected request without a bearer header is answered 401 "No
      token, authorization denied" and changes nothing, whatever its body. */
  lemma NoTokenNoChange(env: Env, db: Db, req: Request)
    requires Catalog.UniqueIds(db.products)
    requires req.Protected() && !Auth.HasBearer(HeaderOf(req))
    ensures Handle(env, db, req) == Exchange(AuthFailed(Auth.NoToken), db)
    ensures Handle(env, db, req).response.Status() == 401
  {
  }

  /** Authentication runs before validation: an invalid body from an
      unauthenticated client is refused with the authentication error,
      never with the validation errors. */
  lemma AuthBeforeValidation(env: Env, db: Db, header: Option<string>, body: ProductFields)
    requires Catalog.UniqueIds(db.products)
    requires Auth.Authenticate(env.lib, header, env.verify, db.users).Denied?
    ensures Handle(env, db, CreateProduct(header, body)).response.AuthFailed?
    ensures Handle(env, db, CreateProduct(header, body)).response.Status() != 400
  {
    var e := Auth.Authenticate(env.lib, header, env.verify, db.users).error;
    assert e.Status() == 401 || e.Status() == 500;
  }

  /** An authenticated create or update with a body that fails validation
      answers 400 with the validation errors and leaves the store alone. */
  lemma InvalidProductBodyRejected(env: Env, db: Db, req: Request)
    requires Catalog.UniqueIds(db.products)
    requires req.CreateProduct? || req.UpdateProduct?
    requires Auth.Authenticate(env.lib, HeaderOf(req), env.verify, db.users).Proceed?
    requires !Validation.ProductAccepted(env.lib, req.body)
    ensures Handle(env, db, req).response == ValidationFailed(Validation.ValidateProduct(env.lib, req.body).errors)
    ensures Handle(env, db, req).db == db
    ensures Handle(env, db, req).response.Status() == 400
  {
    var gate := Validation.ValidateProduct(env.lib, req.body);
    assert gate.Reject?;
    if req.CreateProduct? {
      assert Handle(env, db, req) == CreateStage(env, db, gate);
    } else {
      assert Handle(env, db, req) == UpdateStage(env, db, req.id, gate);
    }
  }

  /** Behind the validation gate the schema never fails: a create whose
      body passes validation answers 201, or 500 when the fresh id is
      taken, never 400. */
  lemma ValidatedCreateNeverSchemaInvalid(env: Env, db: Db, body: ProductFields)
    ensures Validation.ProductAccepted(env.lib, body) ==>
      var r := CreateStage(env, db, Validation.ValidateProduct(env.lib, body));
      r.response.ProductReply? && (r.response.product.Created? || r.response.product.ServerError?)
  {
    if Validation.ProductAccepted(env.lib, body) {
      Validation.ValidatedProductPassesSchema(env.lib, body);
      var clean := Validation.ValidateProduct(env.lib, body).value;
      assert Acceptable(clean);
    }
  }

  /** An authenticated create reaches the create stage. */
  lemma AuthenticatedCreateReachesStage(env: Env, db: Db, header: Option<string>, body: ProductFields)
    requires Catalog.UniqueIds(db.products)
    requires Auth.Authenticate(env.lib, header, env.verify, db.users).Proceed?
    ensures Handle(env, db, CreateProduct(header, body)) == CreateStage(env, db, Validation.ValidateProduct(env.lib, body))
  {
    var req := CreateProduct(header, body);
    var uid := Auth.Authenticate(env.lib, header, env.verify, db.users).userId;
    assert Handle(env, db, req) == Protected(env, db, req, uid);
  }

  /** DELETE /favorites/:productId has no validation stage: an
      authenticated removal of any id, ObjectId-shaped or not, reaches the
      handler, and an id not in the list answers 400 "Product not in
      favorites" rather than a validation failure. */
  lemma RemoveFavoriteUnvalidated(env: Env, db: Db, header: Option<string>, productId: string)
    requires Catalog.UniqueIds(db.products)
    requires Auth.Authenticate(env.lib, header, env.verify, db.users).Proceed?
    ensures var uid := Auth.Authenticate(env.lib, header, env.verify, db.users).userId;
      Handle(env, db, RemoveFavorite(header, productId)).response
        == FavoriteReply(Favorites.RemoveFavorite(db.users, uid, productId).reply)
    ensures var uid := Auth.Authenticate(env.lib, header, env.verify, db.users).userId;
      productId !in db.users[uid].favorites ==>
        Handle(env, db, RemoveFavorite(header, productId)).response == FavoriteReply(Favorites.Failed(Favorites.NotInFavorites))
  {
  }

  /** The user authentication found is the user the favorites handlers
      load, so an authenticated favorites listing always succeeds. */
  lemma AuthenticatedFavoritesListed(env: Env, db: Db, header: Option<string>)
    requires Catalog.UniqueIds(db.products)
    requires Auth.Authenticate(env.lib, header, env.verify, db.users).Proceed?
    ensures Handle(env, db, GetFavorites(header)).response.FavoriteReply?
    ensures Handle(env, db, GetFavorites(header)).response.favorite.Listed?
    ensures Handle(env, db, GetFavorites(header)).response.Status() == 200
  {
  }
}
