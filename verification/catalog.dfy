/** The product store and the single-product operations of the product
    controller: fetch by id, create, update and delete, each with the status
    it answers with. The store is the sequence of product documents in their
    natural (insertion) order; ids are unique, as the `_id` index guarantees. */
module Catalog {
  import opened Base
  import opened ProductSchema

  type Store = seq<Product>

  predicate UniqueIds(s: Store) {
    forall i, j :: 0 <= i < j < |s| ==> s[i].id != s[j].id
  }

  /** The store invariant: unique ids and schema-conforming documents. */
  predicate Valid(s: Store) {
    UniqueIds(s) && forall i :: 0 <= i < |s| ==> WellFormed(s[i])
  }

  predicate HasId(s: Store, id: Id) {
    exists j :: 0 <= j < |s| && s[j].id == id
  }

  /** The position of a document with the given id at or after `k`. */
  function IndexFrom(s: Store, id: Id, k: nat): (r: Option<nat>)
    requires k <= |s|
    ensures r.Some? ==> k <= r.value < |s| && s[r.value].id == id
    ensures r.None? ==> forall j :: k <= j < |s| ==> s[j].id != id
    decreases |s| - k
  {
    if k == |s| then None
    else if s[k].id == id then Some(k)
    else IndexFrom(s, id, k + 1)
  }

  /** The ids of a sequence of products, in order. */
  function IdsOf(ps: seq<Product>): (ids: seq<Id>)
    ensures |ids| == |ps|
    ensures forall i :: 0 <= i < |ps| ==> ids[i] == ps[i].id
  {
    seq(|ps|, i requires 0 <= i < |ps| => ps[i].id)
  }

  /** Looking a document up by id (the store's findById). */
  function Find(s: Store, id: Id): (r: Option<Product>)
    ensures r.Some? <==> HasId(s, id)
    ensures r.Some? ==> r.value in s && r.value.id == id
  {
    match IndexFrom(s, id, 0)
    case None => None
    case Some(i) => Some(s[i])
  }

  /** With unique ids, two documents of the store with the same id are the same. */
  lemma SameIdSameDocument(s: Store, p: Product, q: Product)
    requires UniqueIds(s) && p in s && q in s && p.id == q.id
    ensures p == q
  {
    var a :| 0 <= a < |s| && s[a] == p;
    var b :| 0 <= b < |s| && s[b] == q;
    assert s[a].id == s[b].id;
  }

  /** In stores with unique ids, a lookup depends only on which documents
      with that id the store holds: this is the store read as a map. */
  lemma FindByContents(s: Store, t: Store, k: Id)
    requires UniqueIds(s) && UniqueIds(t)
    requires forall p: Product :: p.id == k ==> (p in s <==> p in t)
    ensures Find(s, k) == Find(t, k)
  {
    if HasId(s, k) {
      var p := Find(s, k).value;
      assert p in t;
      var j :| 0 <= j < |t| && t[j] == p;
      assert HasId(t, k);
      SameIdSameDocument(s, p, Find(t, k).value);
    }
    if HasId(t, k) {
      var q := Find(t, k).value;
      assert q in s;
      var j :| 0 <= j < |s| && s[j] == q;
      assert HasId(s, k);
    }
  }

  /** What a product request answers. Status codes and messages follow
      the product controller. */
  datatype Reply =
    | Found(product: Product)
    | Created(product: Product)
    | Updated(product: Product)
    | Deleted
    | NotFound
    | Invalid(errors: seq<string>)
    | ServerError
  {
    function Status(): int {
      match this
      case Found(_) => 200
      case Created(_) => 201
      case Updated(_) => 200
      case Deleted => 200
      case NotFound => 404
      case Invalid(_) => 400
      case ServerError => 500
    }

    function Message(): string {
      match this
      case Found(_) => ""
      case Created(_) => "Product created successfully"
      case Updated(_) => "Product updated successfully"
      case Deleted => "Product deleted successfully"
      case NotFound => "Product not found"
      case Invalid(_) => "Validation failed"
      case ServerError => "Server error"
    }
  }

  /** A reply together with the store after the request. */
  datatype Step = Step(reply: Reply, store: Store)

  /** `m` is the message of a failure of body `f` that breaks its rule. */
  predicate ReportsBroken(f: ProductFields, m: string) {
    exists e :: Breaks(f, e) && m == ProductSchema.Message(f, e)
  }

  /** The schema's messages for a rejected body, in schema order: one for
      every broken rule, and each of them for a broken rule. */
  function ErrorMessages(f: ProductFields): (msgs: seq<string>)
    ensures |msgs| == |Errors(f)|
    ensures |msgs| == 0 <==> Acceptable(f)
    ensures forall e :: Breaks(f, e) ==> ProductSchema.Message(f, e) in msgs
    ensures forall i :: 0 <= i < |msgs| ==> ReportsBroken(f, msgs[i])
    ensures forall i, j :: 0 <= i < j < |msgs| ==> msgs[i] != msgs[j]
  {
    var errs := Errors(f);
    var msgs := seq(|errs|, i requires 0 <= i < |errs| => ProductSchema.Message(f, errs[i]));
    ErrorsExplained(f);
    MessagesOf(f, errs, msgs);
    DistinctMessages(f, errs, msgs);
    msgs
  }

  /** Distinct failures listed entry by entry give distinct messages. */
  lemma DistinctMessages(f: ProductFields, errs: seq<SchemaError>, msgs: seq<string>)
    requires |msgs| == |errs|
    requires forall i :: 0 <= i < |errs| ==> msgs[i] == ProductSchema.Message(f, errs[i])
    requires forall i, j :: 0 <= i < j < |errs| ==> errs[i] != errs[j]
    ensures forall i, j :: 0 <= i < j < |msgs| ==> msgs[i] != msgs[j]
  {
    forall i, j | 0 <= i < j < |msgs|
      ensures msgs[i] != msgs[j]
    {
      MessagesIdentifyErrors(f, errs[i], errs[j]);
    }
  }

  /** Messages listed entry by entry for the failures `errs` of `f`. */
  lemma MessagesOf(f: ProductFields, errs: seq<SchemaError>, msgs: seq<string>)
    requires |msgs| == |errs|
    requires forall i :: 0 <= i < |errs| ==> msgs[i] == ProductSchema.Message(f, errs[i])
    requires forall e :: e in errs <==> Breaks(f, e)
    ensures forall e :: Breaks(f, e) ==> ProductSchema.Message(f, e) in msgs
    ensures forall i :: 0 <= i < |msgs| ==> ReportsBroken(f, msgs[i])
  {
    forall e | Breaks(f, e)
      ensures ProductSchema.Message(f, e) in msgs
    {
      var i :| 0 <= i < |errs| && errs[i] == e;
      assert msgs[i] == ProductSchema.Message(f, e);
    }
    forall i | 0 <= i < |msgs|
      ensures ReportsBroken(f, msgs[i])
    {
      assert errs[i] in errs;
      assert Breaks(f, errs[i]);
    }
  }

  /** GET /products/:id. The id is cast to an ObjectId and the document
      with that ObjectId's canonical spelling is fetched. An id that does
      not cast and an id with no document both answer 404; nothing is
      changed. */
  function GetProductById(lib: Library, s: Store, rawId: string): (r: Reply)
    ensures r.Found? || r.NotFound?
    ensures r.Found? <==> lib.castsToObjectId(rawId) && HasId(s, lib.canonicalId(rawId))
    ensures r.Found? ==> r.product in s && r.product.id == lib.canonicalId(rawId)
  {
    if !lib.castsToObjectId(rawId) then NotFound
    else match Find(s, lib.canonicalId(rawId))
      case None => NotFound
      case Some(p) => Found(p)
  }

  /** POST /products. The body is cast and validated by the schema (400 with
      every failure); the document gets the fresh id and both timestamps set
      to `now`. A fresh id that is already taken makes the insert fail with
      a duplicate-key error, which answers 500. */
  function CreateProduct(s: Store, body: ProductFields, freshId: Id, now: int): (r: Step)
    ensures r.reply.Invalid? <==> !Acceptable(body)
    ensures r.reply.Invalid? ==> r.reply.errors == ErrorMessages(body) && |r.reply.errors| > 0
    ensures r.reply.ServerError? <==> Acceptable(body) && HasId(s, freshId)
    ensures r.reply.Created? <==> Acceptable(body) && !HasId(s, freshId)
    ensures r.reply.Invalid? || r.reply.ServerError? || r.reply.Created?
    ensures !r.reply.Created? ==> r.store == s
    ensures r.reply.Created? ==>
      && r.store == s + [r.reply.product]
      && r.reply.product.id == freshId
      && Check(body) == Ok(DraftOf(r.reply.product))
      && r.reply.product.createdAt == now && r.reply.product.updatedAt == now
    ensures UniqueIds(s) ==> UniqueIds(r.store)
    ensures Valid(s) ==> Valid(r.store)
  {
    match Check(body)
    case Err(_) => Step(Invalid(ErrorMessages(body)), s)
    case Ok(d) =>
      if HasId(s, freshId) then Step(ServerError, s)
      else
        var p := Stamp(freshId, d, now, now);
        AppendedFresh(s, p);
        Step(Created(p), s + [p])
  }

  /** PUT /products/:id. Order of failures: an id that does not cast (404);
      a price that does not cast to a number, which the update cast reports
      as a bare cast error rather than a validation error (500); then the
      schema's validators (400, whether or not the document exists); then a
      missing document (404). A successful update replaces the four fields
      of that document, keeps its createdAt and sets its updatedAt to `now`;
      every other document is untouched. */
  function UpdateProduct(lib: Library, s: Store, rawId: string, body: ProductFields, now: int): (r: Step)
    requires UniqueIds(s)
    ensures !lib.castsToObjectId(rawId) ==> r == Step(NotFound, s)
    ensures lib.castsToObjectId(rawId) && body.price.NotNumeric? ==> r == Step(ServerError, s)
    ensures lib.castsToObjectId(rawId) && !body.price.NotNumeric? && !Acceptable(body)
      ==> r == Step(Invalid(ErrorMessages(body)), s)
    ensures lib.castsToObjectId(rawId) && Acceptable(body) && !HasId(s, lib.canonicalId(rawId))
      ==> r == Step(NotFound, s)
    ensures r.reply.Updated? <==>
      lib.castsToObjectId(rawId) && Acceptable(body) && HasId(s, lib.canonicalId(rawId))
    ensures r.reply.Updated? ==>
      Check(body).Ok? && Updates(s, lib.canonicalId(rawId), Check(body).value, now, r.reply.product, r.store)
    ensures Valid(s) ==> Valid(r.store)
  {
    if !lib.castsToObjectId(rawId) then Step(NotFound, s)
    else if body.price.NotNumeric? then Step(ServerError, s)
    else match Check(body)
      case Err(_) => Step(Invalid(ErrorMessages(body)), s)
      case Ok(d) => Replace(s, lib.canonicalId(rawId), d, now)
  }

  /** `t` is `s` with the document `id` replaced by `p`: the checked values
      `d`, the old createdAt, updatedAt `now`; other lookups unchanged. */
  ghost predicate Updates(s: Store, id: Id, d: Draft, now: int, p: Product, t: Store)
    requires HasId(s, id)
  {
    && p.id == id
    && DraftOf(p) == d
    && p.createdAt == Find(s, id).value.createdAt
    && p.updatedAt == now
    && |t| == |s|
    && UniqueIds(t)
    && Find(t, id) == Some(p)
    && forall k :: k != id ==> Find(t, k) == Find(s, k)
  }

  /** The store side of a successful update check: replace the document
      with id `id`, if there is one. */
  function Replace(s: Store, id: Id, d: Draft, now: int): (r: Step)
    requires UniqueIds(s)
    ensures r.reply.Updated? || r == Step(NotFound, s)
    ensures r.reply.Updated? <==> HasId(s, id)
    ensures r.reply.Updated? ==> Updates(s, id, d, now, r.reply.product, r.store)
    ensures Valid(s) && DraftOk(d) ==> Valid(r.store)
  {
    match IndexFrom(s, id, 0)
    case None => Step(NotFound, s)
    case Some(i) =>
      var p := Stamp(id, d, s[i].createdAt, now);
      ReplacedKeepsOthers(s, i, p);
      SameIdSameDocument(s, s[i], Find(s, id).value);
      Step(Updated(p), s[i := p])
  }

  /** Replacing the document at `i` by one with the same id keeps ids unique,
      makes the lookup of that id return the new document, and leaves every
      other lookup as it was. */
  lemma ReplacedKeepsOthers(s: Store, i: nat, p: Product)
    requires UniqueIds(s) && i < |s| && p.id == s[i].id
    ensures UniqueIds(s[i := p])
    ensures Find(s[i := p], p.id) == Some(p)
    ensures forall k :: k != p.id ==> Find(s[i := p], k) == Find(s, k)
  {
    var s' := s[i := p];
    assert forall j :: 0 <= j < |s| ==> s'[j].id == s[j].id;
    assert p in s';
    assert HasId(s', p.id);
    SameIdSameDocument(s', p, Find(s', p.id).value);
    forall k | k != p.id
      ensures Find(s', k) == Find(s, k)
    {
      forall q: Product | q.id == k
        ensures q in s' <==> q in s
      {
        if q in s {
          var j :| 0 <= j < |s| && s[j] == q;
          assert s'[j] == q;
        }
        if q in s' {
          var j :| 0 <= j < |s'| && s'[j] == q;
          assert s[j] == q;
        }
      }
      FindByContents(s', s, k);
    }
  }

  /** DELETE /products/:id. An id that does not cast or names no document
      answers 404 and changes nothing; otherwise exactly the document with
      the id's canonical spelling is removed. */
  function DeleteProduct(lib: Library, s: Store, rawId: string): (r: Step)
    requires UniqueIds(s)
    ensures r.reply.Deleted? || r.reply.NotFound?
    ensures r.reply.Deleted? <==> lib.castsToObjectId(rawId) && HasId(s, lib.canonicalId(rawId))
    ensures r.reply.NotFound? ==> r.store == s
    ensures r.reply.Deleted? ==>
      && |r.store| == |s| - 1
      && UniqueIds(r.store)
      && Find(r.store, lib.canonicalId(rawId)) == None
      && forall k :: k != lib.canonicalId(rawId) ==> Find(r.store, k) == Find(s, k)
    ensures Valid(s) ==> Valid(r.store)
  {
    if !lib.castsToObjectId(rawId) then Step(NotFound, s)
    else match IndexFrom(s, lib.canonicalId(rawId), 0)
      case None => Step(NotFound, s)
      case Some(i) =>
        RemovedKeepsOthers(s, i);
        Step(Deleted, s[..i] + s[i + 1..])
  }

  /** Removing the document at `i` keeps ids unique, makes its id unknown,
      and leaves every other lookup as it was. */
  lemma RemovedKeepsOthers(s: Store, i: nat)
    requires UniqueIds(s) && i < |s|
    ensures UniqueIds(s[..i] + s[i + 1..])
    ensures Find(s[..i] + s[i + 1..], s[i].id) == None
    ensures forall k :: k != s[i].id ==> Find(s[..i] + s[i + 1..], k) == Find(s, k)
    ensures forall q :: q in s[..i] + s[i + 1..] ==> q in s
  {
    var s' := s[..i] + s[i + 1..];
    assert forall j :: 0 <= j < i ==> s'[j] == s[j];
    assert forall j :: i <= j < |s'| ==> s'[j] == s[j + 1];
    assert UniqueIds(s') by {
      forall a, b | 0 <= a < b < |s'|
        ensures s'[a].id != s'[b].id
      {
        var a' := if a < i then a else a + 1;
        var b' := if b < i then b else b + 1;
        assert s'[a] == s[a'] && s'[b] == s[b'];
      }
    }
    forall j | 0 <= j < |s'|
      ensures s'[j].id != s[i].id
    {
      var j' := if j < i then j else j + 1;
      assert s'[j] == s[j'] && j' != i;
    }
    forall k | k != s[i].id
      ensures Find(s', k) == Find(s, k)
    {
      forall q: Product | q.id == k
        ensures q in s' <==> q in s
      {
        if q in s {
          var j :| 0 <= j < |s| && s[j] == q;
          assert j != i;
          assert s'[if j < i then j else j - 1] == q;
        }
      }
      FindByContents(s', s, k);
    }
  }

  /** Appending a document whose id is not yet taken keeps ids unique and
      makes that id find the new document. */
  lemma AppendedFresh(s: Store, p: Product)
    requires !HasId(s, p.id)
    ensures UniqueIds(s) ==> UniqueIds(s + [p])
    ensures Valid(s) && WellFormed(p) ==> Valid(s + [p])
    ensures UniqueIds(s) ==> Find(s + [p], p.id) == Some(p)
  {
    var s' := s + [p];
    assert forall j :: 0 <= j < |s| ==> s'[j] == s[j];
    assert s'[|s|] == p;
    if UniqueIds(s) {
      assert UniqueIds(s');
      assert HasId(s', p.id);
      SameIdSameDocument(s', p, Find(s', p.id).value);
    }
  }

  /** The round trip of creating a product and fetching it by its id (a
      fresh ObjectId is written in its canonical spelling). */
  lemma CreateThenGet(lib: Library, s: Store, body: ProductFields, freshId: Id, now: int)
    requires UniqueIds(s) && lib.castsToObjectId(freshId) && lib.canonicalId(freshId) == freshId
    requires CreateProduct(s, body, freshId, now).reply.Created?
    ensures UniqueIds(CreateProduct(s, body, freshId, now).store)
    ensures GetProductById(lib, CreateProduct(s, body, freshId, now).store, freshId)
      == Found(CreateProduct(s, body, freshId, now).reply.product)
  {
    AppendedFresh(s, CreateProduct(s, body, freshId, now).reply.product);
  }

  /** After an update, fetching the id returns the updated document and
      every id naming another document fetches what it fetched before. */
  lemma UpdateThenGet(lib: Library, s: Store, rawId: string, body: ProductFields, now: int, other: string)
    requires UniqueIds(s)
    requires UpdateProduct(lib, s, rawId, body, now).reply.Updated?
    requires lib.canonicalId(other) != lib.canonicalId(rawId)
    ensures GetProductById(lib, UpdateProduct(lib, s, rawId, body, now).store, rawId)
      == Found(UpdateProduct(lib, s, rawId, body, now).reply.product)
    ensures GetProductById(lib, UpdateProduct(lib, s, rawId, body, now).store, other)
      == GetProductById(lib, s, other)
  {
  }

  /** After a delete, the id answers 404 and every id naming another
      document fetches what it fetched before. */
  lemma DeleteThenGet(lib: Library, s: Store, rawId: string, other: string)
    requires UniqueIds(s)
    requires DeleteProduct(lib, s, rawId).reply.Deleted?
    requires lib.canonicalId(other) != lib.canonicalId(rawId)
    ensures GetProductById(lib, DeleteProduct(lib, s, rawId).store, rawId) == NotFound
    ensures GetProductById(lib, DeleteProduct(lib, s, rawId).store, other) == GetProductById(lib, s, other)
  {
  }
}
