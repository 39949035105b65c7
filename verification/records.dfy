/** The persisted entities the message router reads and writes, the rows it
    returns, and the failures it reports. Database identity columns and
    timestamps are plain integers; a nullable column is an `Option`. */
module Records {

  datatype Option<+T> = None | Some(value: T)

  /** Truthiness of an optional string (`if x:` / `x or ...` in Python). */
  predicate NonEmpty(o: Option<string>) {
    o.Some? && o.value != []
  }

  /** `o or ""`. */
  function OrEmpty(o: Option<string>): (r: string)
    ensures r == [] <==> !NonEmpty(o)
  {
    if o.Some? then o.value else []
  }

  /** An authenticated operator; `role` may be NULL. */
  datatype User = User(id: int, role: Option<string>)

  /** A provisioned number, optionally assigned to one operator. */
  datatype PhoneNumber = PhoneNumber(id: int, twilioNumber: string, assignedUserId: Option<int>)

  /** A received SMS. `isRead` is a nullable boolean column. */
  datatype Message = Message(
    id: int,
    toNumber: string,
    fromNumber: Option<string>,
    messageBody: Option<string>,
    otpCode: Option<string>,
    receivedAt: int,
    isRead: Option<bool>)

  /** Structured payload of the audit entry a forward writes (stored as JSON). */
  datatype ForwardMeta = ForwardMeta(
    messageId: int,
    toNumber: string,
    fromNumber: string,
    providerMessageSid: string)

  datatype AuditLog = AuditLog(userId: int, action: string, meta: ForwardMeta)

  /** The three tables the router touches, each in the database's row order. */
  datatype Store = Store(numbers: seq<PhoneNumber>, messages: seq<Message>, audit: seq<AuditLog>)

  /** One row of the list response. */
  datatype MessageOut = MessageOut(
    id: int,
    toNumber: string,
    fromNumber: Option<string>,
    messageBody: Option<string>,
    otpCode: Option<string>,
    otpExpired: bool,
    isRead: bool,
    receivedAt: int)

  /** An `HTTPException`: status code and detail text. */
  datatype HttpError = HttpError(status: int, detail: string)

  datatype Result<+T> = Ok(value: T) | Err(error: HttpError)

  /** The two helpers imported from `app.utils`, whose bodies are not part of
      this model: phone-number canonicalisation and the OTP visibility window
      (a function of `received_at` against a clock fixed for the request). */
  datatype Utils = Utils(normalize: string -> string, otpVisible: int -> bool)
}
