/** The product document schema: required fields, the price lower bound,
    trimming of title and description, and the automatic timestamps. */
module ProductSchema {
  import opened Base
  import opened Text

  /** The price field of a request body: missing or empty, a value that
      casts to a number, or text that does not. */
  datatype PriceField = Blank | Number(amount: real) | NotNumeric(text: string)

  /** The four product fields as they arrive in a request body; a missing
      string field reads as "". */
  datatype ProductFields = ProductFields(title: string, price: PriceField, description: string, image: string)

  /** Field values that passed the schema, as they will be stored. */
  datatype Draft = Draft(title: string, price: real, description: string, image: string)

  /** A stored product. The timestamps are abstract ordered clock values. */
  datatype Product = Product(
    id: Id,
    title: string,
    price: real,
    description: string,
    image: string,
    createdAt: int,
    updatedAt: int
  )

  /** The schema's validation failures, one per path. */
  datatype SchemaError =
    | TitleRequired
    | PriceRequired
    | PriceNotANumber
    | PriceNegative
    | DescriptionRequired
    | ImageRequired

  /** The message the document mapper reports for a failure of body `f`;
      a failed cast quotes the offending text. */
  function Message(f: ProductFields, e: SchemaError): (m: string)
    ensures e.PriceNotANumber? && f.price.NotNumeric? ==> IsInfix(f.price.text, m)
  {
    match e
    case TitleRequired => "Product title is required"
    case PriceRequired => "Product price is required"
    case PriceNotANumber =>
      var t := if f.price.NotNumeric? then f.price.text else "";
      CastMessageQuotes(t);
      CastMessage(t)
    case PriceNegative => "Price cannot be negative"
    case DescriptionRequired => "Product description is required"
    case ImageRequired => "Product image URL is required"
  }

  /** The message of a failed Number cast of the text `t`. */
  function CastMessage(t: string): string {
    "Cast to Number failed for value \"" + t + "\" (type string) at path \"price\""
  }

  /** A cast message quotes the offending text. */
  lemma CastMessageQuotes(t: string)
    ensures IsInfix(t, CastMessage(t))
  {
    var cast := "Cast to Number failed for value \"";
    var m := CastMessage(t);
    assert m == cast + t + "\" (type string) at path \"price\"";
    assert m[|cast|..|cast| + |t|] == t;
    assert OccursAt(m, t, |cast|);
  }

  /** Different failures of one body are reported with different messages,
      so the reply's message list tells which rules were broken. */
  lemma MessagesIdentifyErrors(f: ProductFields, e1: SchemaError, e2: SchemaError)
    ensures Message(f, e1) == Message(f, e2) ==> e1 == e2
  {
    if e1 != e2 && Message(f, e1) == Message(f, e2) {
      assert false;
    }
  }

  /** What the schema guarantees of stored field values: every field present
      (strings non-empty), title and description trimmed, price not negative. */
  predicate DraftOk(d: Draft) {
    && d.title != "" && IsTrimmed(d.title)
    && d.price >= 0.0
    && d.description != "" && IsTrimmed(d.description)
    && d.image != ""
  }

  function DraftOf(p: Product): Draft {
    Draft(p.title, p.price, p.description, p.image)
  }

  /** A product as the store may hold it. */
  predicate WellFormed(p: Product) {
    DraftOk(DraftOf(p))
  }

  /** A stored product's fields written back as a request body. */
  function FieldsOf(p: Product): ProductFields {
    ProductFields(p.title, Number(p.price), p.description, p.image)
  }

  /** Whether the price field passes both the required and the min validator. */
  predicate PriceAccepted(f: PriceField) {
    f.Number? && f.amount >= 0.0
  }

  /** The schema's accept condition, field by field. */
  predicate Acceptable(f: ProductFields) {
    Trim(f.title) != "" && PriceAccepted(f.price) && Trim(f.description) != "" && f.image != ""
  }

  /** The required validator on a trimmed string path. */
  function RequiredTrimmed(s: string, e: SchemaError): (errs: seq<SchemaError>)
    ensures errs == [] || errs == [e]
    ensures errs == [e] <==> Trim(s) == ""
  {
    if Trim(s) == "" then [e] else []
  }

  /** The cast, required and min validators on the price path. */
  function PriceErrors(f: PriceField): (errs: seq<SchemaError>)
    ensures errs == [] <==> PriceAccepted(f)
    ensures f.Blank? <==> errs == [PriceRequired]
    ensures f.NotNumeric? ==> errs == [PriceNotANumber]
    ensures f.Number? && f.amount < 0.0 <==> errs == [PriceNegative]
  {
    match f
    case Blank => [PriceRequired]
    case NotNumeric(t) => [PriceNotANumber]
    case Number(v) => if v < 0.0 then [PriceNegative] else []
  }

  /** The failures of a request body, in schema order: title, price,
      description, image. Title and description are trimmed before the
      required check, the image is not. */
  function Errors(f: ProductFields): (errs: seq<SchemaError>)
    ensures |errs| == 0 <==> Acceptable(f)
    ensures |errs| <= 4
    ensures forall i, j :: 0 <= i < j < |errs| ==> errs[i] != errs[j]
  {
    var title := RequiredTrimmed(f.title, TitleRequired);
    var price := PriceErrors(f.price);
    var description := RequiredTrimmed(f.description, DescriptionRequired);
    var image := if f.image == "" then [ImageRequired] else [];
    PathsDistinct(title, price, description, image);
    title + price + description + image
  }

  /** At most one failure per path, listed in path order, gives a list
      without repeats. */
  lemma PathsDistinct(title: seq<SchemaError>, price: seq<SchemaError>, description: seq<SchemaError>, image: seq<SchemaError>)
    requires title == [] || title == [TitleRequired]
    requires price == [] || price == [PriceRequired] || price == [PriceNotANumber] || price == [PriceNegative]
    requires description == [] || description == [DescriptionRequired]
    requires image == [] || image == [ImageRequired]
    ensures var errs := title + price + description + image;
      forall i, j :: 0 <= i < j < |errs| ==> errs[i] != errs[j]
  {
    var errs := title + price + description + image;
    var a, b, c := |title|, |price|, |description|;
    forall i | 0 <= i < |errs|
      ensures PathOf(errs[i]) == PathAt(a, b, c, i)
    {
      if i < a {
        assert errs[i] == title[i];
      } else if i < a + b {
        assert errs[i] == price[i - a];
      } else if i < a + b + c {
        assert errs[i] == description[i - a - b];
      } else {
        assert errs[i] == image[i - a - b - c];
      }
    }
  }

  /** The path a failure belongs to: 0 title, 1 price, 2 description, 3 image. */
  function PathOf(e: SchemaError): nat {
    match e
    case TitleRequired => 0
    case PriceRequired => 1
    case PriceNotANumber => 1
    case PriceNegative => 1
    case DescriptionRequired => 2
    case ImageRequired => 3
  }

  /** The path of position `i` when the failures of the first three paths
      take `a`, `b` and `c` positions (each at most one). */
  function PathAt(a: nat, b: nat, c: nat, i: nat): nat {
    if i < a then 0 else if i < a + b then 1 else if i < a + b + c then 2 else 3
  }

  /** Whether rule `e` is broken by body `f`. */
  predicate Breaks(f: ProductFields, e: SchemaError) {
    match e
    case TitleRequired => Trim(f.title) == ""
    case PriceRequired => f.price.Blank?
    case PriceNotANumber => f.price.NotNumeric?
    case PriceNegative => f.price.Number? && f.price.amount < 0.0
    case DescriptionRequired => Trim(f.description) == ""
    case ImageRequired => f.image == ""
  }

  /** Each failure is reported exactly when its rule is broken. */
  lemma ErrorsExplained(f: ProductFields)
    ensures forall e :: e in Errors(f) <==> Breaks(f, e)
  {
    var title := RequiredTrimmed(f.title, TitleRequired);
    var price := PriceErrors(f.price);
    var rest := RequiredTrimmed(f.description, DescriptionRequired)
      + (if f.image == "" then [ImageRequired] else []);
    assert Errors(f) == title + price + rest;
    forall e
      ensures e in Errors(f) <==> Breaks(f, e)
    {
      assert e in Errors(f) <==> e in title || e in price || e in rest;
      match e
      case TitleRequired =>
        assert e !in price && e !in rest;
      case DescriptionRequired =>
        assert e !in price && e !in title;
      case ImageRequired =>
        assert e !in price && e !in title;
      case _ =>
        assert e !in title && e !in rest;
    }
  }

  /** Casting and validating a request body against the schema: either the
      trimmed values to store, or every failure. */
  function Check(f: ProductFields): (r: Result<Draft, seq<SchemaError>>)
    ensures r.Ok? <==> Acceptable(f)
    ensures r.Ok? ==> DraftOk(r.value)
    ensures r.Ok? ==> r.value == Draft(Trim(f.title), f.price.amount, Trim(f.description), f.image)
    ensures r.Err? ==> |r.error| > 0
  {
    var errs := Errors(f);
    if |errs| > 0 then Err(errs)
    else Ok(Draft(Trim(f.title), f.price.amount, Trim(f.description), f.image))
  }

  /** A product the store holds passes the schema again unchanged: the schema
      is idempotent on its own output. */
  lemma StoredProductRechecks(p: Product)
    requires WellFormed(p)
    ensures Check(FieldsOf(p)) == Ok(DraftOf(p))
  {
  }

  /** Writing a draft with timestamps: the document as stored on create
      (both stamps the same) or on update (createdAt kept). */
  function Stamp(id: Id, d: Draft, createdAt: int, updatedAt: int): (p: Product)
    ensures DraftOf(p) == d && p.id == id
    ensures DraftOk(d) ==> WellFormed(p)
  {
    Product(id, d.title, d.price, d.description, d.image, createdAt, updatedAt)
  }
}
