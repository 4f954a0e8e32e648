/** The favorites controller: a user's favorites are a list of product ids
    held on the user document. Adding checks that the product exists and is
    not yet in the list; removing checks only list membership. The "no
    duplicates" property is kept by these checks, not by the store, and
    only when the add checks the canonical spelling of the id (Add); the
    handler as written checks the raw request string (AddAsWritten). */
module Favorites {
  import opened Base
  import opened ProductSchema
  import Catalog
  import opened Accounts

  predicate NoDuplicates(favs: seq<Id>) {
    forall i, j :: 0 <= i < j < |favs| ==> favs[i] != favs[j]
  }

  /** `a` can be obtained from `b` by deleting entries: the entries of `a`
      appear in `b` in the same relative order. */
  predicate SubsequenceOf(a: seq<Id>, b: seq<Id>)
    decreases |b|
  {
    if a == [] then true
    else if b == [] then false
    else if a[0] == b[0] then SubsequenceOf(a[1..], b[1..])
    else SubsequenceOf(a, b[1..])
  }

  /** The list filtered by `fav != id`. */
  function Without(favs: seq<Id>, id: Id): (r: seq<Id>)
    ensures id !in r
    ensures multiset(r) == multiset(favs)[id := 0]
    ensures |r| == |favs| - multiset(favs)[id]
    ensures SubsequenceOf(r, favs)
    ensures id !in favs ==> r == favs
  {
    if favs == [] then []
    else
      assert favs == [favs[0]] + favs[1..];
      if favs[0] == id then Without(favs[1..], id)
      else [favs[0]] + Without(favs[1..], id)
  }

  /** Why an add or a remove was refused. */
  datatype FavError = ProductNotFound | AlreadyInFavorites | NotInFavorites
  {
    function Status(): int {
      match this
      case ProductNotFound => 404
      case AlreadyInFavorites => 400
      case NotInFavorites => 400
    }

    function Message(): string {
      match this
      case ProductNotFound => "Product not found"
      case AlreadyInFavorites => "Product already in favorites"
      case NotInFavorites => "Product not in favorites"
    }
  }

  /** The product lookup of addFavorite: the id is cast to an ObjectId and
      looked up by its canonical spelling; an id that does not cast is
      reported like an id with no document. */
  predicate ProductExists(lib: Library, catalog: Catalog.Store, productId: string) {
    lib.castsToObjectId(productId) && Catalog.HasId(catalog, lib.canonicalId(productId))
  }

  /** Adding to a favorites list: the product must exist and must not be in
      the list yet; on success the id is appended at the end. The list holds
      ObjectIds, so what is appended, and what membership is decided on, is
      the id's canonical spelling. */
  function Add(lib: Library, catalog: Catalog.Store, favs: seq<Id>, productId: string): (r: Result<seq<Id>, FavError>)
    ensures !ProductExists(lib, catalog, productId) ==> r == Err(ProductNotFound)
    ensures ProductExists(lib, catalog, productId) && lib.canonicalId(productId) in favs ==> r == Err(AlreadyInFavorites)
    ensures r.Ok? <==> ProductExists(lib, catalog, productId) && lib.canonicalId(productId) !in favs
    ensures r.Ok? ==>
      |r.value| == |favs| + 1 && r.value[..|favs|] == favs && r.value[|favs|] == lib.canonicalId(productId)
  {
    if !ProductExists(lib, catalog, productId) then Err(ProductNotFound)
    else if lib.canonicalId(productId) in favs then Err(AlreadyInFavorites)
    else Ok(favs + [lib.canonicalId(productId)])
  }

  /** The add as the handler writes it: the membership test compares the
      raw request string with the stored spellings, while the push casts it
      and stores the canonical spelling. */
  function AddAsWritten(lib: Library, catalog: Catalog.Store, favs: seq<Id>, productId: string): (r: Result<seq<Id>, FavError>)
    ensures !ProductExists(lib, catalog, productId) ==> r == Err(ProductNotFound)
    ensures ProductExists(lib, catalog, productId) && productId in favs ==> r == Err(AlreadyInFavorites)
    ensures r.Ok? <==> ProductExists(lib, catalog, productId) && productId !in favs
    ensures r.Ok? ==>
      |r.value| == |favs| + 1 && r.value[..|favs|] == favs && r.value[|favs|] == lib.canonicalId(productId)
  {
    if !ProductExists(lib, catalog, productId) then Err(ProductNotFound)
    else if productId in favs then Err(AlreadyInFavorites)
    else Ok(favs + [lib.canonicalId(productId)])
  }

  /** On an id already in canonical spelling the handler as written and the
      corrected add agree. */
  lemma AsWrittenAgreesOnCanonical(lib: Library, catalog: Catalog.Store, favs: seq<Id>, productId: string)
    requires lib.canonicalId(productId) == productId
    ensures AddAsWritten(lib, catalog, favs, productId) == Add(lib, catalog, favs, productId)
  {
  }

  /** The handler as written stores a duplicate whenever a product already
      listed is added again under another spelling of its id. */
  lemma AsWrittenStoresDuplicate(lib: Library, catalog: Catalog.Store, favs: seq<Id>, productId: string)
    requires ProductExists(lib, catalog, productId)
    requires productId !in favs && lib.canonicalId(productId) in favs
    ensures AddAsWritten(lib, catalog, favs, productId).Ok?
    ensures !NoDuplicates(AddAsWritten(lib, catalog, favs, productId).value)
    ensures Add(lib, catalog, favs, productId) == Err(AlreadyInFavorites)
  {
    var l := AddAsWritten(lib, catalog, favs, productId).value;
    var k :| 0 <= k < |favs| && favs[k] == lib.canonicalId(productId);
    assert l[k] == favs[k] && l[|favs|] == favs[k];
  }

  /** Removing from a favorites list: the id must be in the list; on
      success every occurrence goes and the rest keep their order. */
  function Remove(favs: seq<Id>, productId: string): (r: Result<seq<Id>, FavError>)
    ensures r.Err? <==> productId !in favs
    ensures r.Err? ==> r.error == NotInFavorites
    ensures r.Ok? ==>
      && productId !in r.value
      && multiset(r.value) == multiset(favs)[productId := 0]
      && |r.value| == |favs| - multiset(favs)[productId]
      && SubsequenceOf(r.value, favs)
  {
    if productId !in favs then Err(NotInFavorites)
    else Ok(Without(favs, productId))
  }

  /** A list without duplicates keeps none after an add, whether the add
      succeeds or not (a refused add leaves the list as it was). */
  lemma AddKeepsNoDuplicates(lib: Library, catalog: Catalog.Store, favs: seq<Id>, productId: string)
    ensures NoDuplicates(favs) ==>
      NoDuplicates(match Add(lib, catalog, favs, productId) case Ok(l) => l case Err(_) => favs)
  {
    var r := Add(lib, catalog, favs, productId);
    if r.Ok? && NoDuplicates(favs) {
      var l := r.value;
      forall i, j | 0 <= i < j < |l|
        ensures l[i] != l[j]
      {
        if j == |favs| {
          assert l[i] == favs[i];
        } else {
          assert l[i] == favs[i] && l[j] == favs[j];
        }
      }
    }
  }

  /** A sublist of a list without duplicates has none either. */
  lemma {:induction false} SubsequenceKeepsNoDuplicates(a: seq<Id>, b: seq<Id>)
    requires SubsequenceOf(a, b) && NoDuplicates(b)
    ensures NoDuplicates(a)
    decreases |b|
  {
    if a != [] && b != [] {
      assert NoDuplicates(b[1..]) by {
        forall i, j | 0 <= i < j < |b[1..]|
          ensures b[1..][i] != b[1..][j]
        {
          assert b[1..][i] == b[i + 1] && b[1..][j] == b[j + 1];
        }
      }
      if a[0] == b[0] {
        SubsequenceKeepsNoDuplicates(a[1..], b[1..]);
        SubsequenceMembers(a[1..], b[1..]);
        forall i, j | 0 <= i < j < |a|
          ensures a[i] != a[j]
        {
          if i == 0 {
            assert a[j] == a[1..][j - 1];
            assert a[j] in a[1..];
          } else {
            assert a[i] == a[1..][i - 1] && a[j] == a[1..][j - 1];
          }
        }
      } else {
        SubsequenceKeepsNoDuplicates(a, b[1..]);
      }
    }
  }

  /** Every entry of a sublist is an entry of the list. */
  lemma {:induction false} SubsequenceMembers(a: seq<Id>, b: seq<Id>)
    requires SubsequenceOf(a, b)
    ensures forall x :: x in a ==> x in b
    decreases |b|
  {
    if a != [] && b != [] {
      if a[0] == b[0] {
        SubsequenceMembers(a[1..], b[1..]);
        assert a == [a[0]] + a[1..];
        assert b == [b[0]] + b[1..];
      } else {
        SubsequenceMembers(a, b[1..]);
        assert b == [b[0]] + b[1..];
      }
    }
  }

  /** A list without duplicates keeps none after a remove; a successful
      remove then shortens it by exactly one. */
  lemma RemoveKeepsNoDuplicates(favs: seq<Id>, productId: string)
    ensures NoDuplicates(favs) && Remove(favs, productId).Ok? ==>
      NoDuplicates(Remove(favs, productId).value) && |Remove(favs, productId).value| == |favs| - 1
  {
    if NoDuplicates(favs) && productId in favs {
      var l := Without(favs, productId);
      SubsequenceKeepsNoDuplicates(l, favs);
      OccursOnce(favs, productId);
    }
  }

  /** In a list without duplicates an entry occurs exactly once. */
  lemma {:induction false} OccursOnce(favs: seq<Id>, x: Id)
    requires NoDuplicates(favs) && x in favs
    ensures multiset(favs)[x] == 1
  {
    var k :| 0 <= k < |favs| && favs[k] == x;
    assert favs == favs[..k] + [x] + favs[k + 1..];
    assert x !in favs[..k] by {
      forall i | 0 <= i < k ensures favs[..k][i] != x {
        assert favs[..k][i] == favs[i];
      }
    }
    var tail := favs[k + 1..];
    assert x !in tail by {
      forall i | 0 <= i < |tail| ensures tail[i] != x {
        assert tail[i] == favs[k + 1 + i];
      }
    }
    assert multiset(favs) == multiset(favs[..k]) + multiset{x} + multiset(favs[k + 1..]);
  }

  /** Adding an id and removing it again, as the list spells it, gives
      back the original list. */
  lemma AddThenRemove(lib: Library, catalog: Catalog.Store, favs: seq<Id>, productId: string)
    requires Add(lib, catalog, favs, productId).Ok?
    ensures Remove(Add(lib, catalog, favs, productId).value, lib.canonicalId(productId)) == Ok(favs)
  {
    AppendThenWithout(favs, lib.canonicalId(productId));
  }

  lemma {:induction false} AppendThenWithout(favs: seq<Id>, id: Id)
    requires id !in favs
    ensures Without(favs + [id], id) == favs
  {
    if favs == [] {
      assert [id][1..] == [];
    } else {
      assert (favs + [id])[1..] == favs[1..] + [id];
      AppendThenWithout(favs[1..], id);
      assert favs == [favs[0]] + favs[1..];
    }
  }

  /** Populating the favorites list: each id is replaced by its product,
      in stored order; ids whose product no longer exists are dropped. */
  function Resolve(catalog: Catalog.Store, favs: seq<Id>): (r: seq<Product>)
    ensures |r| <= |favs|
    ensures forall p :: p in r ==> p in catalog && p.id in favs
    ensures SubsequenceOf(Catalog.IdsOf(r), favs)
    ensures (forall i :: 0 <= i < |favs| ==> Catalog.HasId(catalog, favs[i])) ==> Catalog.IdsOf(r) == favs
  {
    if favs == [] then []
    else
      var rest := Resolve(catalog, favs[1..]);
      assert forall i :: 1 <= i < |favs| ==> favs[1..][i - 1] == favs[i];
      match Catalog.Find(catalog, favs[0])
      case None => rest
      case Some(p) =>
        assert Catalog.IdsOf([p] + rest) == [p.id] + Catalog.IdsOf(rest);
        [p] + rest
  }

  /** Each id with a product occurs among the populated products as often
      as in the list; ids without one do not occur. */
  ghost predicate CountsMatch(catalog: Catalog.Store, favs: seq<Id>, r: seq<Product>) {
    forall x :: multiset(Catalog.IdsOf(r))[x] == if Catalog.HasId(catalog, x) then multiset(favs)[x] else 0
  }

  /** One step of populating: the first id is resolved (prepended) or
      dropped, and the counts still match. */
  lemma CountsStep(catalog: Catalog.Store, favs: seq<Id>, rest: seq<Product>, r: seq<Product>)
    requires |favs| > 0 && CountsMatch(catalog, favs[1..], rest)
    requires if Catalog.HasId(catalog, favs[0]) then Catalog.IdsOf(r) == [favs[0]] + Catalog.IdsOf(rest) else r == rest
    ensures CountsMatch(catalog, favs, r)
  {
    assert favs == [favs[0]] + favs[1..];
    assert multiset(favs) == multiset{favs[0]} + multiset(favs[1..]);
  }

  /** Populating drops exactly the ids without a product and keeps every
      other id as often as the list holds it. */
  lemma {:induction false} ResolveCounts(catalog: Catalog.Store, favs: seq<Id>)
    ensures CountsMatch(catalog, favs, Resolve(catalog, favs))
  {
    if favs != [] {
      ResolveCounts(catalog, favs[1..]);
      ResolveStep(catalog, favs);
    }
  }

  /** The step of ResolveCounts: counts that match for the tail still
      match once the first id is resolved or dropped. */
  lemma ResolveStep(catalog: Catalog.Store, favs: seq<Id>)
    requires favs != [] && CountsMatch(catalog, favs[1..], Resolve(catalog, favs[1..]))
    ensures CountsMatch(catalog, favs, Resolve(catalog, favs))
  {
    var rest := Resolve(catalog, favs[1..]);
    var r := Resolve(catalog, favs);
    match Catalog.Find(catalog, favs[0])
    case None =>
      assert r == rest && !Catalog.HasId(catalog, favs[0]);
      CountsStep(catalog, favs, rest, r);
    case Some(p) =>
      assert r == [p] + rest && p.id == favs[0];
      assert Catalog.IdsOf(r) == [favs[0]] + Catalog.IdsOf(rest);
      CountsStep(catalog, favs, rest, r);
  }

  /** What a favorites request answers. */
  datatype Reply =
    | Listed(products: seq<Product>)
    | Changed(message: string, favorites: seq<Id>)
    | Failed(error: FavError)
    | ServerError
  {
    function Status(): int {
      match this
      case Listed(_) => 200
      case Changed(_, _) => 200
      case Failed(e) => e.Status()
      case ServerError => 500
    }
  }

  /** A reply together with the users collection after the request. */
  datatype Step = Step(reply: Reply, users: Users)

  /** Every user's favorites list is free of duplicates. */
  predicate AllNoDuplicates(users: Users) {
    forall u :: u in users ==> NoDuplicates(users[u].favorites)
  }

  /** GET /favorites for user `uid`: the populated list. A user document
      that cannot be found makes the handler fail with 500. */
  function GetFavorites(catalog: Catalog.Store, users: Users, uid: Id): (r: Reply)
    ensures r.Listed? || r.ServerError?
    ensures r.Listed? <==> uid in users
    ensures r.Listed? ==> |r.products| <= |users[uid].favorites|
    ensures r.Listed? ==> forall p :: p in r.products ==> p in catalog
    ensures r.Listed? ==> SubsequenceOf(Catalog.IdsOf(r.products), users[uid].favorites)
    ensures r.Listed? ==> CountsMatch(catalog, users[uid].favorites, r.products)
    ensures r.Listed? && (forall i :: 0 <= i < |users[uid].favorites| ==> Catalog.HasId(catalog, users[uid].favorites[i]))
      ==> Catalog.IdsOf(r.products) == users[uid].favorites
  {
    if uid !in users then ServerError
    else
      ResolveCounts(catalog, users[uid].favorites);
      Listed(Resolve(catalog, users[uid].favorites))
  }

  /** POST /favorites for user `uid`. The product check comes first (404),
      then the user lookup (500 if missing), then the membership check
      (400). Only a success changes the users collection, and only that
      user's list. */
  function AddFavorite(lib: Library, catalog: Catalog.Store, users: Users, uid: Id, productId: string): (r: Step)
    ensures !ProductExists(lib, catalog, productId) ==> r == Step(Failed(ProductNotFound), users)
    ensures ProductExists(lib, catalog, productId) && uid !in users ==> r == Step(ServerError, users)
    ensures ProductExists(lib, catalog, productId) && uid in users && lib.canonicalId(productId) in users[uid].favorites
      ==> r == Step(Failed(AlreadyInFavorites), users)
    ensures r.reply.Changed? <==>
      ProductExists(lib, catalog, productId) && uid in users && lib.canonicalId(productId) !in users[uid].favorites
    ensures !r.reply.Changed? ==> r.users == users
    ensures r.reply.Changed? ==>
      && r.reply.message == "Product added to favorites"
      && r.reply.favorites == users[uid].favorites + [lib.canonicalId(productId)]
      && r.users == users[uid := users[uid].(favorites := r.reply.favorites)]
    ensures AllNoDuplicates(users) ==> AllNoDuplicates(r.users)
  {
    if !ProductExists(lib, catalog, productId) then Step(Failed(ProductNotFound), users)
    else if uid !in users then Step(ServerError, users)
    else
      var u := users[uid];
      match Add(lib, catalog, u.favorites, productId)
      case Err(e) => Step(Failed(e), users)
      case Ok(l) =>
        AddKeepsNoDuplicates(lib, catalog, u.favorites, productId);
        Step(Changed("Product added to favorites", l), users[uid := u.(favorites := l)])
  }

  /** DELETE /favorites/:productId for user `uid`. The catalog is not an
      input: only list membership decides, so the id of a product that was
      deleted from the catalog can still be removed. */
  function RemoveFavorite(users: Users, uid: Id, productId: string): (r: Step)
    ensures uid !in users ==> r == Step(ServerError, users)
    ensures uid in users && productId !in users[uid].favorites ==> r == Step(Failed(NotInFavorites), users)
    ensures r.reply.Changed? <==> uid in users && productId in users[uid].favorites
    ensures !r.reply.Changed? ==> r.users == users
    ensures r.reply.Changed? ==>
      && r.reply.message == "Product removed from favorites"
      && productId !in r.reply.favorites
      && multiset(r.reply.favorites) == multiset(users[uid].favorites)[productId := 0]
      && SubsequenceOf(r.reply.favorites, users[uid].favorites)
      && r.users == users[uid := users[uid].(favorites := r.reply.favorites)]
    ensures AllNoDuplicates(users) ==> AllNoDuplicates(r.users)
  {
    if uid !in users then Step(ServerError, users)
    else
      var u := users[uid];
      match Remove(u.favorites, productId)
      case Err(e) => Step(Failed(e), users)
      case Ok(l) =>
        RemoveKeepsNoDuplicates(u.favorites, productId);
        Step(Changed("Product removed from favorites", l), users[uid := u.(favorites := l)])
  }

  /** A favorite whose product has since been deleted from the catalog can
      still be removed. */
  lemma RemoveAfterProductDeleted(lib: Library, catalog: Catalog.Store, users: Users, uid: Id, productId: string)
    requires Catalog.UniqueIds(catalog)
    requires Catalog.DeleteProduct(lib, catalog, productId).reply.Deleted?
    requires uid in users && productId in users[uid].favorites
    ensures !Catalog.HasId(Catalog.DeleteProduct(lib, catalog, productId).store, lib.canonicalId(productId))
    ensures RemoveFavorite(users, uid, productId).reply.Changed?
  {
  }
}
