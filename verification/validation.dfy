/** The request-body validation chains and the gate that turns their
    failures into a 400 reply. A chain runs every validator of a field in
    order without stopping at the first failure, so one field can report
    several messages; sanitizers (trim, normalizeEmail) rewrite the value the
    later validators and the handler see. */
module Validation {
  import opened Base
  import opened Text
  import opened ProductSchema

  /** The body fields the chains inspect. */
  datatype Field = Name | Email | Password | Title | Price | Description | Image | ProductId
  {
    /** The field's path as reported in a failure. */
    function Path(): string {
      match this
      case Name => "name"
      case Email => "email"
      case Password => "password"
      case Title => "title"
      case Price => "price"
      case Description => "description"
      case Image => "image"
      case ProductId => "productId"
    }
  }

  /** The validators of the chains, each named by the field it checks and
      what it checks. */
  datatype Validator =
    | NameNotEmpty | NameLength
    | EmailNotEmpty | EmailFormat
    | PasswordNotEmpty | PasswordLength
    | TitleNotEmpty | TitleLength
    | PriceNotEmpty | PriceFloat
    | DescriptionNotEmpty | DescriptionLength
    | ImageNotEmpty | ImageFormat
    | ProductIdNotEmpty | ProductIdFormat
  {
    /** The text the validator reports when it fails (its withMessage). */
    function Message(): string {
      match this
      case NameNotEmpty => "Name is required"
      case NameLength => "Name must be at least 2 characters"
      case EmailNotEmpty => "Email is required"
      case EmailFormat => "Please provide a valid email"
      case PasswordNotEmpty => "Password is required"
      case PasswordLength => "Password must be at least 6 characters"
      case TitleNotEmpty => "Product title is required"
      case TitleLength => "Title must be between 3 and 100 characters"
      case PriceNotEmpty => "Price is required"
      case PriceFloat => "Price must be a positive number"
      case DescriptionNotEmpty => "Description is required"
      case DescriptionLength => "Description must be between 10 and 500 characters"
      case ImageNotEmpty => "Image URL is required"
      case ImageFormat => "Please provide a valid image URL"
      case ProductIdNotEmpty => "Product ID is required"
      case ProductIdFormat => "Invalid product ID"
    }
  }

  /** No two validators share a message, so the text in a reply names the
      validator that failed. */
  lemma MessageIdentifiesValidator(a: Validator, b: Validator)
    ensures a.Message() == b.Message() ==> a == b
  {
    if a != b {
      assert a.Message() != b.Message() by {
        match a
        case NameNotEmpty =>
        case NameLength =>
        case EmailNotEmpty =>
        case EmailFormat =>
        case PasswordNotEmpty =>
        case PasswordLength =>
        case TitleNotEmpty =>
        case TitleLength =>
        case PriceNotEmpty =>
        case PriceFloat =>
        case DescriptionNotEmpty =>
        case DescriptionLength =>
        case ImageNotEmpty =>
        case ImageFormat =>
        case ProductIdNotEmpty =>
        case ProductIdFormat =>
      }
    }
  }

  /** One reported failure: the field's path and the validator that failed,
      whose message the reply carries. */
  datatype FieldError = FieldError(field: Field, failed: Validator)
  {
    function Message(): string {
      failed.Message()
    }
  }

  /** The outcome of the gate: the sanitized body is passed on, or the
      request is answered with every failure. */
  datatype Gate<T> = Pass(value: T) | Reject(errors: seq<FieldError>)
  {
    function Status(): int {
      if Pass? then 200 else 400
    }

    function Message(): string {
      if Pass? then "" else "Validation failed"
    }
  }

  /** `errs` lists the failure of validator `v` on `field` exactly when `v`
      does not hold. */
  predicate Reports(errs: seq<FieldError>, field: Field, v: Validator, holds: bool) {
    FieldError(field, v) in errs <==> !holds
  }

  /** How many entries a validator adds to the reply: one when it fails,
      none when it holds. */
  function Broken(holds: bool): nat {
    if holds then 0 else 1
  }

  /** One validator run: reports `v` on `field` unless `ok`. */
  function Require(ok: bool, field: Field, v: Validator): (errs: seq<FieldError>)
    ensures |errs| == Broken(ok)
    ensures errs == [] <==> ok
    ensures Reports(errs, field, v, ok)
    ensures forall e :: e in errs ==> e == FieldError(field, v)
  {
    var errs := seq(Broken(ok), _ => FieldError(field, v));
    assert !ok ==> errs[0] == FieldError(field, v);
    errs
  }

  /** A field's chain of two validators. Both run whatever the first one
      says, so a value can fail both, and the first failure is listed
      before the second. */
  function Chain(field: Field, first: bool, v1: Validator, second: bool, v2: Validator): (errs: seq<FieldError>)
    requires v1 != v2
    ensures errs == [] <==> first && second
    ensures |errs| == Broken(first) + Broken(second)
    ensures Reports(errs, field, v1, first) && Reports(errs, field, v2, second)
    ensures forall e :: e in errs ==> e.field == field
    ensures !first ==> errs[0] == FieldError(field, v1)
  {
    Require(first, field, v1) + Require(second, field, v2)
  }

  /** The gate: passes the sanitized body only when no validator failed. */
  function Decide<T>(sanitized: T, errs: seq<FieldError>): (r: Gate<T>)
    ensures r.Pass? <==> errs == []
    ensures r.Pass? ==> r.value == sanitized
    ensures r.Reject? ==> r.errors == errs && |r.errors| > 0
  {
    if errs == [] then Pass(sanitized) else Reject(errs)
  }

  /** notEmpty: the value is not the empty string (whitespace counts). */
  predicate NotEmpty(s: string) {
    s != ""
  }

  /** isLength({min, max}) as the validator library measures length. */
  predicate LengthBetween(s: string, min: nat, max: Option<nat>) {
    VisibleLength(s) >= min && (max.None? || VisibleLength(s) <= max.value)
  }

  // ----- register -----

  datatype RegisterBody = RegisterBody(name: string, email: string, password: string)

  function NameErrors(name: string): (errs: seq<FieldError>)
    ensures errs == [] <==> VisibleLength(name) >= 2
    ensures Reports(errs, Name, NameNotEmpty, name != "")
    ensures Reports(errs, Name, NameLength, VisibleLength(name) >= 2)
    ensures |errs| == Broken(name != "") + Broken(VisibleLength(name) >= 2)
    ensures forall e :: e in errs ==> e.field == Name
  {
    Chain(Name, NotEmpty(name), NameNotEmpty,
      LengthBetween(name, 2, None), NameLength)
  }

  function EmailErrors(lib: Library, email: string): (errs: seq<FieldError>)
    ensures errs == [] <==> email != "" && lib.isEmail(email)
    ensures Reports(errs, Email, EmailNotEmpty, email != "")
    ensures Reports(errs, Email, EmailFormat, lib.isEmail(email))
    ensures |errs| == Broken(email != "") + Broken(lib.isEmail(email))
    ensures forall e :: e in errs ==> e.field == Email
  {
    Chain(Email, NotEmpty(email), EmailNotEmpty,
      lib.isEmail(email), EmailFormat)
  }

  function PasswordErrors(password: string): (errs: seq<FieldError>)
    ensures errs == [] <==> VisibleLength(password) >= 6
    ensures Reports(errs, Password, PasswordNotEmpty, password != "")
    ensures Reports(errs, Password, PasswordLength, VisibleLength(password) >= 6)
    ensures |errs| == Broken(password != "") + Broken(VisibleLength(password) >= 6)
    ensures forall e :: e in errs ==> e.field == Password
  {
    Chain(Password, NotEmpty(password), PasswordNotEmpty,
      LengthBetween(password, 6, None), PasswordLength)
  }

  /** What a rejected registration lists, given the values the validators
      see: each of the six validators exactly when its validator fails, and
      one entry per failing validator, so nothing else and nothing twice. */
  predicate ListsRegisterFailures(lib: Library, name: string, email: string, password: string, errs: seq<FieldError>) {
    && Reports(errs, Name, NameNotEmpty, name != "")
    && Reports(errs, Name, NameLength, VisibleLength(name) >= 2)
    && Reports(errs, Email, EmailNotEmpty, email != "")
    && Reports(errs, Email, EmailFormat, lib.isEmail(email))
    && Reports(errs, Password, PasswordNotEmpty, password != "")
    && Reports(errs, Password, PasswordLength, VisibleLength(password) >= 6)
    && |errs| == Broken(name != "") + Broken(VisibleLength(name) >= 2)
                + Broken(email != "") + Broken(lib.isEmail(email))
                + Broken(password != "") + Broken(VisibleLength(password) >= 6)
  }

  /** The three register chains on the values they see, in body order. */
  function RegisterErrors(lib: Library, name: string, email: string, password: string): (errs: seq<FieldError>)
    ensures errs == [] <==> VisibleLength(name) >= 2 && email != "" && lib.isEmail(email) && VisibleLength(password) >= 6
    ensures ListsRegisterFailures(lib, name, email, password, errs)
    ensures forall e :: e in errs ==> e.field == Name || e.field == Email || e.field == Password
  {
    NameErrors(name) + EmailErrors(lib, email) + PasswordErrors(password)
  }

  /** What registration accepts, in the user's terms: a name of at least two
      characters and a valid email once surrounding whitespace is removed,
      and a password of at least six characters as typed. */
  predicate RegisterAccepted(lib: Library, b: RegisterBody) {
    VisibleLength(Trim(b.name)) >= 2 && lib.isEmail(Trim(b.email)) && Trim(b.email) != ""
    && VisibleLength(b.password) >= 6
  }

  function ValidateRegister(lib: Library, b: RegisterBody): (r: Gate<RegisterBody>)
    ensures r.Pass? <==> RegisterAccepted(lib, b)
    ensures r.Pass? ==> r.value == RegisterBody(Trim(b.name), lib.normalizeEmail(Trim(b.email)), b.password)
    ensures r.Reject? ==> ListsRegisterFailures(lib, Trim(b.name), Trim(b.email), b.password, r.errors)
    ensures r.Reject? ==> forall e :: e in r.errors ==> e.field == Name || e.field == Email || e.field == Password
  {
    RegisterGate(lib, Trim(b.name), Trim(b.email), b.password)
  }

  /** The register gate on the values the validators see; the email is
      normalized only after it passed. */
  function RegisterGate(lib: Library, name: string, email: string, password: string): (r: Gate<RegisterBody>)
    ensures r.Pass? <==> VisibleLength(name) >= 2 && email != "" && lib.isEmail(email) && VisibleLength(password) >= 6
    ensures r.Pass? ==> r.value == RegisterBody(name, lib.normalizeEmail(email), password)
    ensures r.Reject? ==> ListsRegisterFailures(lib, name, email, password, r.errors)
    ensures r.Reject? ==> forall e :: e in r.errors ==> e.field == Name || e.field == Email || e.field == Password
  {
    Decide(RegisterBody(name, lib.normalizeEmail(email), password), RegisterErrors(lib, name, email, password))
  }

  /** A blank name reports both name messages: the chain does not stop at
      the first failure. */
  lemma BlankNameReportsTwice(lib: Library, b: RegisterBody)
    requires Trim(b.name) == ""
    ensures ValidateRegister(lib, b).Reject?
    ensures FieldError(Name, NameNotEmpty) in ValidateRegister(lib, b).errors
    ensures FieldError(Name, NameLength) in ValidateRegister(lib, b).errors
  {
    assert VisibleLength(Trim(b.name)) == 0;
  }

  // ----- login -----

  datatype LoginBody = LoginBody(email: string, password: string)

  /** What a rejected login lists: the two email validators and the
      password one, each exactly when its validator fails, once each. */
  predicate ListsLoginFailures(lib: Library, email: string, password: string, errs: seq<FieldError>) {
    && Reports(errs, Email, EmailNotEmpty, email != "")
    && Reports(errs, Email, EmailFormat, lib.isEmail(email))
    && Reports(errs, Password, PasswordNotEmpty, password != "")
    && |errs| == Broken(email != "") + Broken(lib.isEmail(email)) + Broken(password != "")
  }

  /** The two login chains on the values they see. */
  function LoginErrors(lib: Library, email: string, password: string): (errs: seq<FieldError>)
    ensures errs == [] <==> email != "" && lib.isEmail(email) && password != ""
    ensures ListsLoginFailures(lib, email, password, errs)
    ensures forall e :: e in errs ==> e.field == Email || e.field == Password
  {
    EmailErrors(lib, email) + Require(NotEmpty(password), Password, PasswordNotEmpty)
  }

  /** Login accepts any non-empty password: only its presence is checked. */
  function ValidateLogin(lib: Library, b: LoginBody): (r: Gate<LoginBody>)
    ensures r.Pass? <==> Trim(b.email) != "" && lib.isEmail(Trim(b.email)) && b.password != ""
    ensures r.Pass? ==> r.value == LoginBody(lib.normalizeEmail(Trim(b.email)), b.password)
    ensures r.Reject? ==> ListsLoginFailures(lib, Trim(b.email), b.password, r.errors)
    ensures r.Reject? ==> forall e :: e in r.errors ==> e.field == Email || e.field == Password
  {
    Decide(LoginBody(lib.normalizeEmail(Trim(b.email)), b.password), LoginErrors(lib, Trim(b.email), b.password))
  }

  /** Every body registration accepts also passes login validation with the
      same email and password. */
  lemma RegisterAcceptedLogsIn(lib: Library, b: RegisterBody)
    ensures ValidateRegister(lib, b).Pass? ==>
      && ValidateLogin(lib, LoginBody(b.email, b.password)).Pass?
      && ValidateLogin(lib, LoginBody(b.email, b.password)).value.email == ValidateRegister(lib, b).value.email
  {
  }

  // ----- product -----

  /** The price as the validator library sees it: notEmpty fails only for
      a missing or empty value; isFloat({min: 0}) holds for a numeric value
      that is not negative. */
  function PriceValidation(price: PriceField): (errs: seq<FieldError>)
    ensures errs == [] <==> PriceAccepted(price)
    ensures Reports(errs, Price, PriceNotEmpty, !price.Blank?)
    ensures Reports(errs, Price, PriceFloat, PriceAccepted(price))
    ensures |errs| == Broken(!price.Blank?) + Broken(PriceAccepted(price))
    ensures price.Blank? ==> errs == [FieldError(Price, PriceNotEmpty), FieldError(Price, PriceFloat)]
    ensures !price.Blank? && !PriceAccepted(price) ==> errs == [FieldError(Price, PriceFloat)]
    ensures forall e :: e in errs ==> e.field == Price
  {
    Chain(Price, !price.Blank?, PriceNotEmpty,
      price.Number? && price.amount >= 0.0, PriceFloat)
  }

  /** A trimmed text field with a required check and a length range. */
  function TextErrors(value: string, field: Field, min: nat, max: nat, required: Validator, length: Validator): (errs: seq<FieldError>)
    requires 0 < min && required != length
    ensures errs == [] <==> min <= VisibleLength(value) <= max
    ensures Reports(errs, field, required, value != "")
    ensures Reports(errs, field, length, min <= VisibleLength(value) <= max)
    ensures |errs| == Broken(value != "") + Broken(min <= VisibleLength(value) <= max)
    ensures forall e :: e in errs ==> e.field == field
  {
    Chain(field, NotEmpty(value), required, LengthBetween(value, min, Some(max)), length)
  }

  function ImageErrors(lib: Library, image: string): (errs: seq<FieldError>)
    ensures errs == [] <==> image != "" && lib.isURL(image)
    ensures Reports(errs, Image, ImageNotEmpty, image != "")
    ensures Reports(errs, Image, ImageFormat, lib.isURL(image))
    ensures |errs| == Broken(image != "") + Broken(lib.isURL(image))
    ensures forall e :: e in errs ==> e.field == Image
  {
    Chain(Image, NotEmpty(image), ImageNotEmpty,
      lib.isURL(image), ImageFormat)
  }

  /** What a rejected product body lists, given the values the validators
      see: each of the eight validators exactly when it fails, once each. */
  predicate ListsProductFailures(lib: Library, title: string, price: PriceField, description: string, image: string, errs: seq<FieldError>) {
    && ReportsProductFailures(lib, title, price, description, image, errs)
    && |errs| == ProductFailureCount(lib, title, price, description, image)
  }

  /** Each of the eight product validators is listed exactly when it fails. */
  predicate ReportsProductFailures(lib: Library, title: string, price: PriceField, description: string, image: string, errs: seq<FieldError>) {
    && Reports(errs, Title, TitleNotEmpty, title != "")
    && Reports(errs, Title, TitleLength, 3 <= VisibleLength(title) <= 100)
    && Reports(errs, Price, PriceNotEmpty, !price.Blank?)
    && Reports(errs, Price, PriceFloat, PriceAccepted(price))
    && Reports(errs, Description, DescriptionNotEmpty, description != "")
    && Reports(errs, Description, DescriptionLength, 10 <= VisibleLength(description) <= 500)
    && Reports(errs, Image, ImageNotEmpty, image != "")
    && Reports(errs, Image, ImageFormat, lib.isURL(image))
  }

  /** How many of the eight product validators fail. */
  function ProductFailureCount(lib: Library, title: string, price: PriceField, description: string, image: string): nat {
    Broken(title != "") + Broken(3 <= VisibleLength(title) <= 100)
                + Broken(!price.Blank?) + Broken(PriceAccepted(price))
                + Broken(description != "") + Broken(10 <= VisibleLength(description) <= 500)
                + Broken(image != "") + Broken(lib.isURL(image))
  }

  /** The four product chains on the values they see, in body order. */
  function ProductErrors(lib: Library, title: string, price: PriceField, description: string, image: string): (errs: seq<FieldError>)
    ensures |errs| == 0 <==>
      && 3 <= VisibleLength(title) <= 100
      && PriceAccepted(price)
      && 10 <= VisibleLength(description) <= 500
      && image != "" && lib.isURL(image)
    ensures ListsProductFailures(lib, title, price, description, image, errs)
    ensures forall e :: e in errs ==> e.field == Title || e.field == Price || e.field == Description || e.field == Image
  {
    var t := TextErrors(title, Title, 3, 100, TitleNotEmpty, TitleLength);
    var p := PriceValidation(price);
    var d := TextErrors(description, Description, 10, 500, DescriptionNotEmpty, DescriptionLength);
    var i := ImageErrors(lib, image);
    ProductChainsReport(lib, title, price, description, image, t, p, d, i);
    ProductChainsCount(lib, title, price, description, image, t, p, d, i);
    ChainsOnFields(t, p, d, i, Title, Price, Description, Image);
    t + p + d + i
  }

  /** The four chains together report each validator as its own chain
      does, since no chain reports on another's field. */
  lemma ProductChainsReport(lib: Library, title: string, price: PriceField, description: string, image: string,
                            t: seq<FieldError>, p: seq<FieldError>, d: seq<FieldError>, i: seq<FieldError>)
    requires forall e :: e in t ==> e.field == Title
    requires forall e :: e in p ==> e.field == Price
    requires forall e :: e in d ==> e.field == Description
    requires forall e :: e in i ==> e.field == Image
    requires Reports(t, Title, TitleNotEmpty, title != "")
    requires Reports(t, Title, TitleLength, 3 <= VisibleLength(title) <= 100)
    requires Reports(p, Price, PriceNotEmpty, !price.Blank?)
    requires Reports(p, Price, PriceFloat, PriceAccepted(price))
    requires Reports(d, Description, DescriptionNotEmpty, description != "")
    requires Reports(d, Description, DescriptionLength, 10 <= VisibleLength(description) <= 500)
    requires Reports(i, Image, ImageNotEmpty, image != "")
    requires Reports(i, Image, ImageFormat, lib.isURL(image))
    ensures ReportsProductFailures(lib, title, price, description, image, t + p + d + i)
  {
  }

  /** The four chains together hold one entry per failing validator. */
  lemma ProductChainsCount(lib: Library, title: string, price: PriceField, description: string, image: string,
                           t: seq<FieldError>, p: seq<FieldError>, d: seq<FieldError>, i: seq<FieldError>)
    requires |t| == Broken(title != "") + Broken(3 <= VisibleLength(title) <= 100)
    requires |p| == Broken(!price.Blank?) + Broken(PriceAccepted(price))
    requires |d| == Broken(description != "") + Broken(10 <= VisibleLength(description) <= 500)
    requires |i| == Broken(image != "") + Broken(lib.isURL(image))
    ensures |t + p + d + i| == |t| + |p| + |d| + |i|
    ensures |t + p + d + i| == ProductFailureCount(lib, title, price, description, image)
  {
    assert |t + p + d + i| == |t| + |p| + |d| + |i|;
  }

  /** Four chains on the fields `fa` to `fd`, one after the other, report
      only on those fields. */
  lemma ChainsOnFields(a: seq<FieldError>, b: seq<FieldError>, c: seq<FieldError>, d: seq<FieldError>,
                       fa: Field, fb: Field, fc: Field, fd: Field)
    requires forall e :: e in a ==> e.field == fa
    requires forall e :: e in b ==> e.field == fb
    requires forall e :: e in c ==> e.field == fc
    requires forall e :: e in d ==> e.field == fd
    ensures forall e :: e in a + b + c + d ==> e.field == fa || e.field == fb || e.field == fc || e.field == fd
  {
  }

  /** What product validation accepts: after trimming, a title of 3 to 100
      characters, a description of 10 to 500, a valid non-empty image URL,
      and a price that is a number not below zero. */
  predicate ProductAccepted(lib: Library, b: ProductFields) {
    && 3 <= VisibleLength(Trim(b.title)) <= 100
    && PriceAccepted(b.price)
    && 10 <= VisibleLength(Trim(b.description)) <= 500
    && Trim(b.image) != "" && lib.isURL(Trim(b.image))
  }

  function ValidateProduct(lib: Library, b: ProductFields): (r: Gate<ProductFields>)
    ensures r.Pass? <==> ProductAccepted(lib, b)
    ensures r.Pass? ==> r.value == ProductFields(Trim(b.title), b.price, Trim(b.description), Trim(b.image))
    ensures r.Reject? ==> ListsProductFailures(lib, Trim(b.title), b.price, Trim(b.description), Trim(b.image), r.errors)
    ensures r.Reject? ==> forall e :: e in r.errors ==> e.field == Title || e.field == Price || e.field == Description || e.field == Image
  {
    ProductGate(lib, Trim(b.title), b.price, Trim(b.description), Trim(b.image))
  }

  /** The product gate on the values the validators see. */
  function ProductGate(lib: Library, title: string, price: PriceField, description: string, image: string): (r: Gate<ProductFields>)
    ensures r.Pass? <==>
      && 3 <= VisibleLength(title) <= 100
      && PriceAccepted(price)
      && 10 <= VisibleLength(description) <= 500
      && image != "" && lib.isURL(image)
    ensures r.Pass? ==> r.value == ProductFields(title, price, description, image)
    ensures r.Reject? ==> ListsProductFailures(lib, title, price, description, image, r.errors)
    ensures r.Reject? ==> forall e :: e in r.errors ==> e.field == Title || e.field == Price || e.field == Description || e.field == Image
  {
    Decide(ProductFields(title, price, description, image), ProductErrors(lib, title, price, description, image))
  }

  /** A body that passes product validation is one the schema accepts as
      it is, so the handler never meets a schema failure after the gate:
      the stored title, description and image are exactly the sanitized ones. */
  lemma ValidatedProductPassesSchema(lib: Library, b: ProductFields)
    ensures ValidateProduct(lib, b).Pass? ==>
      var v := ValidateProduct(lib, b).value;
      Check(v) == Ok(Draft(v.title, v.price.amount, v.description, v.image))
  {
    if ValidateProduct(lib, b).Pass? {
      TrimIdempotent(b.title);
      TrimIdempotent(b.description);
      assert Trim(b.title) != "";
      assert Trim(b.description) != "";
    }
  }

  /** A blank price reports both price messages. */
  lemma BlankPriceReportsTwice(lib: Library, b: ProductFields)
    requires b.price.Blank?
    ensures ValidateProduct(lib, b).Reject?
    ensures FieldError(Price, PriceNotEmpty) in ValidateProduct(lib, b).errors
    ensures FieldError(Price, PriceFloat) in ValidateProduct(lib, b).errors
  {
    assert !PriceAccepted(b.price);
  }

  // ----- favorite -----

  datatype FavoriteBody = FavoriteBody(productId: string)

  /** The product id must be present and spelled as an ObjectId; it is not
      trimmed. */
  function ValidateFavorite(lib: Library, b: FavoriteBody): (r: Gate<FavoriteBody>)
    ensures r.Pass? <==> b.productId != "" && lib.isMongoId(b.productId)
    ensures r.Pass? ==> r.value == b
    ensures r.Reject? ==> Reports(r.errors, ProductId, ProductIdNotEmpty, b.productId != "")
    ensures r.Reject? ==> Reports(r.errors, ProductId, ProductIdFormat, lib.isMongoId(b.productId))
    ensures r.Reject? ==> |r.errors| == Broken(b.productId != "") + Broken(lib.isMongoId(b.productId))
    ensures r.Reject? ==> forall e :: e in r.errors ==> e.field == ProductId
  {
    Decide(b, Chain(ProductId, NotEmpty(b.productId), ProductIdNotEmpty,
      lib.isMongoId(b.productId), ProductIdFormat))
  }
}
