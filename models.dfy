/** The request and response records of models.py and the checks their declarations ask pydantic to make
    on a JSON body: required fields, `max_length`, `ge=0`, and the defaults of optional fields. */
module Models {
  import opened Wrappers
  import Crypto

  /** A member of a JSON request body: missing, an explicit `null`, or a value of the declared type. */
  datatype Field<T> = Absent | Null | Given(value: T)

  datatype Problem = Missing | NullNotAllowed | TooLong(maxLength: nat) | BelowZero

  /** One entry of the list of errors pydantic reports (FastAPI answers them with 422). */
  datatype FieldError = FieldError(field: string, problem: Problem)

  function FieldsIn(errors: seq<FieldError>): set<string> {
    set e | e in errors :: e.field
  }

  /** The errors a required field contributes. */
  function RequiredErrors<T>(name: string, f: Field<T>): (errors: seq<FieldError>)
    ensures errors == [] <==> f.Given?
    ensures forall e :: e in errors ==> e.field == name
  {
    match f
    case Absent => [FieldError(name, Missing)]
    case Null => [FieldError(name, NullNotAllowed)]
    case Given(_) => []
  }

  /** An `Optional[...] = None` field: missing and `null` both read as None. */
  function OptionalValue<T>(f: Field<T>): (v: Option<T>)
    ensures v.Some? <==> f.Given?
    ensures v.Some? ==> v.value == f.value
  {
    if f.Given? then Some(f.value) else None
  }

  /** An `Optional[...] = Field(default, ...)` field: missing reads as the default, `null` as None. */
  function DefaultedValue<T>(f: Field<T>, default: T): (v: Option<T>)
    ensures f.Absent? ==> v == Some(default)
    ensures f.Null? ==> v == None
    ensures f.Given? ==> v == Some(f.value)
  {
    match f
    case Absent => Some(default)
    case Null => None
    case Given(x) => Some(x)
  }

  // ---- UserCreate ---------------------------------------------------------------------------------

  datatype UserCreate = UserCreate(email: string, password: string)

  datatype UserCreateBody = UserCreateBody(email: Field<string>, password: Field<string>)

  /** Both `email` and `password` are required; `EmailStr` format checks are not modelled. */
  function ValidateUserCreate(body: UserCreateBody): (r: Result<UserCreate, seq<FieldError>>)
    ensures r.Success? <==> body.email.Given? && body.password.Given?
    ensures r.Success? ==> r.value == UserCreate(body.email.value, body.password.value)
    ensures r.Failure? ==>
      FieldsIn(r.error)
      == (if body.email.Given? then {} else {"email"}) + (if body.password.Given? then {} else {"password"})
  {
    var errors := RequiredErrors("email", body.email) + RequiredErrors("password", body.password);
    if errors == [] then Success(UserCreate(body.email.value, body.password.value)) else Failure(errors)
  }

  // ---- OTPVerify ----------------------------------------------------------------------------------

  datatype OTPVerify = OTPVerify(email: string, otp: string)

  datatype OTPVerifyBody = OTPVerifyBody(email: Field<string>, otp: Field<string>)

  /** Both `email` and `otp` are required. */
  function ValidateOTPVerify(body: OTPVerifyBody): (r: Result<OTPVerify, seq<FieldError>>)
    ensures r.Success? <==> body.email.Given? && body.otp.Given?
    ensures r.Success? ==> r.value == OTPVerify(body.email.value, body.otp.value)
    ensures r.Failure? ==>
      FieldsIn(r.error)
      == (if body.email.Given? then {} else {"email"}) + (if body.otp.Given? then {} else {"otp"})
  {
    var errors := RequiredErrors("email", body.email) + RequiredErrors("otp", body.otp);
    if errors == [] then Success(OTPVerify(body.email.value, body.otp.value)) else Failure(errors)
  }

  // ---- Token and UserInDB -------------------------------------------------------------------------

  /** The login response; `token_type` defaults to "bearer". */
  datatype Token = Token(accessToken: Crypto.CompactToken, tokenType: string := "bearer")

  /** The `{id, email}` record that identifies the caller of a protected endpoint. */
  datatype UserInDB = UserInDB(id: string, email: string)

  // ---- ProductCreate ------------------------------------------------------------------------------

  const MaxTitleLength := 200
  const DefaultPrice := 0.0
  const DefaultQuantity := 1

  datatype ProductCreate = ProductCreate(
    title: string,
    description: Option<string>,
    price: Option<real>,
    quantity: Option<int>,
    imageUrl: Option<string>)

  datatype ProductCreateBody = ProductCreateBody(
    title: Field<string>,
    description: Field<string>,
    price: Field<real>,
    quantity: Field<int>,
    imageUrl: Field<string>)

  /** `title` is required and at most 200 characters; `price` and `quantity` may be `null`, default to
      0.0 and 1 when missing, and must not be negative when given. `HttpUrl` checks are not modelled. */
  function ValidateProductCreate(body: ProductCreateBody): (r: Result<ProductCreate, seq<FieldError>>)
    ensures r.Success? <==>
      && body.title.Given? && |body.title.value| <= MaxTitleLength
      && (body.price.Given? ==> body.price.value >= 0.0)
      && (body.quantity.Given? ==> body.quantity.value >= 0)
    ensures r.Success? ==>
      && r.value.title == body.title.value
      && r.value.description == OptionalValue(body.description)
      && r.value.price == DefaultedValue(body.price, DefaultPrice)
      && r.value.quantity == DefaultedValue(body.quantity, DefaultQuantity)
      && r.value.imageUrl == OptionalValue(body.imageUrl)
    ensures r.Failure? ==> FieldsIn(r.error) <= {"title", "price", "quantity"}
  {
    var errors :=
      RequiredErrors("title", body.title)
      + (if body.title.Given? && |body.title.value| > MaxTitleLength
         then [FieldError("title", TooLong(MaxTitleLength))] else [])
      + (if body.price.Given? && body.price.value < 0.0 then [FieldError("price", BelowZero)] else [])
      + (if body.quantity.Given? && body.quantity.value < 0
         then [FieldError("quantity", BelowZero)] else []);
    if errors == [] then
      Success(ProductCreate(
        body.title.value,
        OptionalValue(body.description),
        DefaultedValue(body.price, DefaultPrice),
        DefaultedValue(body.quantity, DefaultQuantity),
        OptionalValue(body.imageUrl)))
    else
      Failure(errors)
  }

  // ---- ProductUpdate ------------------------------------------------------------------------------

  /** Every field optional and None by default: a partial update. No length or sign constraint. */
  datatype ProductUpdate = ProductUpdate(
    title: Option<string>,
    description: Option<string>,
    price: Option<real>,
    quantity: Option<int>,
    imageUrl: Option<string>)

  datatype ProductUpdateBody = ProductUpdateBody(
    title: Field<string>,
    description: Field<string>,
    price: Field<real>,
    quantity: Field<int>,
    imageUrl: Field<string>)

  /** A field of the update is set exactly when the body gives it a non-null value, and then it holds
      that value. */
  function ValidateProductUpdate(body: ProductUpdateBody): (u: ProductUpdate)
    ensures u.title.Some? <==> body.title.Given?
    ensures u.description.Some? <==> body.description.Given?
    ensures u.price.Some? <==> body.price.Given?
    ensures u.quantity.Some? <==> body.quantity.Given?
    ensures u.imageUrl.Some? <==> body.imageUrl.Given?
    ensures u.title.Some? ==> u.title.value == body.title.value
    ensures u.description.Some? ==> u.description.value == body.description.value
    ensures u.price.Some? ==> u.price.value == body.price.value
    ensures u.quantity.Some? ==> u.quantity.value == body.quantity.value
    ensures u.imageUrl.Some? ==> u.imageUrl.value == body.imageUrl.value
  {
    ProductUpdate(
      OptionalValue(body.title),
      OptionalValue(body.description),
      OptionalValue(body.price),
      OptionalValue(body.quantity),
      OptionalValue(body.imageUrl))
  }

  // ---- ProductInDB --------------------------------------------------------------------------------

  datatype ProductInDB = ProductInDB(
    id: string,
    title: string,
    description: Option<string>,
    price: real,
    quantity: int,
    imageUrl: Option<string>)

  /** A token built without naming its type is a bearer token. */
  lemma TokenTypeDefault(t: Crypto.CompactToken)
    ensures Token(t).tokenType == "bearer"
  {
  }
}
