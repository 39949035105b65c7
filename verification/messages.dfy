/** The three message handlers of the router: list a number's messages with
    OTP redaction, mark one read, and forward one through the SMS provider with
    an audit entry. Each handler is a pure function of the store it reads; the
    framework's exceptions become `Err` values. */
module Messages {
  import opened PyStr
  import opened Records
  import opened Access
  import opened Query

  const NotAuthorized := HttpError(403, "Not authorized")
  const MessageNotFound := HttpError(404, "Message not found")
  const InvalidDestination := HttpError(422, "Invalid destination number")
  const NotConfigured := HttpError(500, "Twilio sending is not configured (missing TWILIO_ACCOUNT_SID and/or TWILIO_AUTH_TOKEN)")
  const NoSender := HttpError(500, "Cannot determine from_number for forwarding")
  const SendFailedPrefix := "Twilio send failed: "
  const EmptyPlaceholder := "(empty message)"
  const ForwardAction := "forward_message"

  /** A handler's answer together with the store it leaves behind. */
  datatype Reply<+T> = Reply(result: Result<T>, store: Store)

  // ---------------------------------------------------------------- listing

  /** One response row: the stored fields, with `otp_code` withheld once the
      code is no longer visible. */
  function ViewOf(m: Message, visible: bool): (v: MessageOut)
    ensures v.id == m.id && v.toNumber == m.toNumber && v.fromNumber == m.fromNumber
    ensures v.messageBody == m.messageBody && v.receivedAt == m.receivedAt
    ensures v.isRead <==> m.isRead == Some(true)
    ensures v.otpExpired <==> !visible
    ensures v.otpExpired ==> v.otpCode == None
    ensures !v.otpExpired ==> v.otpCode == m.otpCode
  {
    MessageOut(
      id := m.id,
      toNumber := m.toNumber,
      fromNumber := m.fromNumber,
      messageBody := m.messageBody,
      otpCode := if visible then m.otpCode else None,
      otpExpired := !visible,
      isRead := m.isRead == Some(true),
      receivedAt := m.receivedAt)
  }

  function Views(utils: Utils, rows: seq<Message>): (r: seq<MessageOut>)
    ensures |r| == |rows|
    ensures forall i :: 0 <= i < |rows| ==> r[i] == ViewOf(rows[i], utils.otpVisible(rows[i].receivedAt))
  {
    seq(|rows|, i requires 0 <= i < |rows| => ViewOf(rows[i], utils.otpVisible(rows[i].receivedAt)))
  }

  /** The rendered page for a resolved variant set: the `n` newest matching
      messages, newest first, each redacted at read time. */
  function RenderNewest(utils: Utils, messages: seq<Message>, variants: set<string>, n: nat)
    : (out: seq<MessageOut>)
    ensures |out| <= n
    ensures |out| == if n < |MatchingRows(messages, variants)| then n else |MatchingRows(messages, variants)|
    ensures forall i :: 0 <= i < |out| ==>
              && out[i].toNumber in variants
              && out[i].otpExpired == !utils.otpVisible(out[i].receivedAt)
              && (out[i].otpExpired ==> out[i].otpCode == None)
    ensures forall i, j :: 0 <= i < j < |out| ==> out[i].receivedAt >= out[j].receivedAt
    ensures forall i :: 0 <= i < |out| ==>
              exists m :: m in messages && out[i] == ViewOf(m, utils.otpVisible(m.receivedAt))
    ensures exists rows :: multiset(rows) <= multiset(MatchingRows(messages, variants)) && out == Views(utils, rows)
  {
    var rows := SelectNewest(messages, variants, n);
    ViewsKeepOrder(utils, rows);
    ViewsOfRows(utils, messages, variants, rows);
    Views(utils, rows)
  }

  /** Rendering rows drawn from `messages` and addressed to `variants`. */
  lemma ViewsOfRows(utils: Utils, messages: seq<Message>, variants: set<string>, rows: seq<Message>)
    requires forall i :: 0 <= i < |rows| ==> rows[i] in messages && rows[i].toNumber in variants
    ensures var out := Views(utils, rows);
            forall i :: 0 <= i < |out| ==>
              && out[i].toNumber in variants
              && out[i].otpExpired == !utils.otpVisible(out[i].receivedAt)
              && (out[i].otpExpired ==> out[i].otpCode == None)
              && exists m :: m in messages && out[i] == ViewOf(m, utils.otpVisible(m.receivedAt))
  {
    var out := Views(utils, rows);
    forall i | 0 <= i < |out|
      ensures exists m :: m in messages && out[i] == ViewOf(m, utils.otpVisible(m.receivedAt))
    {
      assert rows[i] in messages && out[i] == ViewOf(rows[i], utils.otpVisible(rows[i].receivedAt));
    }
  }

  /** `GET /messages/{twilio_number}?limit=...`. */
  function ListMessages(utils: Utils, store: Store, u: User, twilioNumber: string, limit: int)
    : (r: Result<seq<MessageOut>>)
    ensures var vs := NumberVariants(utils.normalize, twilioNumber);
            r.Err? <==> !CanViewNumber(u, OwningNumber(store.numbers, vs))
    ensures r.Err? ==> r.error == NotAuthorized
    ensures r.Ok? ==> |r.value| <= ClampLimit(limit) <= 1000
    ensures r.Ok? ==> r.value == RenderNewest(utils, store.messages, NumberVariants(utils.normalize, twilioNumber), ClampLimit(limit))
  {
    var effective := ClampLimit(limit);
    var variants := InlineVariants(utils.normalize, twilioNumber);
    var number := OwningNumber(store.numbers, variants);
    if !CanViewNumber(u, number) then Err(NotAuthorized)
    else Ok(RenderNewest(utils, store.messages, variants, effective))
  }

  lemma ViewsKeepOrder(utils: Utils, rows: seq<Message>)
    requires NewestFirst(rows)
    ensures forall i, j :: 0 <= i < j < |rows| ==>
              Views(utils, rows)[i].receivedAt >= Views(utils, rows)[j].receivedAt
  {
    forall i, j | 0 <= i < j < |rows|
      ensures Views(utils, rows)[i].receivedAt >= Views(utils, rows)[j].receivedAt
    {
      NewestFirstPairs(rows, i, j);
    }
  }

  /** A matching message missing from a successful listing is no newer than
      anything listed: the limit cuts off the oldest rows only. */
  lemma ListOmitsOnlyOlder(utils: Utils, store: Store, u: User, twilioNumber: string, limit: int,
                           m: Message, i: int)
    requires ListMessages(utils, store, u, twilioNumber, limit).Ok?
    requires m in store.messages && m.toNumber in NumberVariants(utils.normalize, twilioNumber)
    requires ViewOf(m, utils.otpVisible(m.receivedAt)) !in ListMessages(utils, store, u, twilioNumber, limit).value
    requires 0 <= i < |ListMessages(utils, store, u, twilioNumber, limit).value|
    ensures m.receivedAt <= ListMessages(utils, store, u, twilioNumber, limit).value[i].receivedAt
  {
    var variants := NumberVariants(utils.normalize, twilioNumber);
    var rows := SelectNewest(store.messages, variants, ClampLimit(limit));
    var out := ListMessages(utils, store, u, twilioNumber, limit).value;
    assert out == Views(utils, rows);
    assert m !in rows;
    assert out[i].receivedAt == rows[i].receivedAt;
  }

  /** A non-admin asks for "D" (no "+"), which normalises to "D" or to
      "+D". If the first number row that is "D" or "+D" is "+D" and is
      assigned to them, they are served: the variants bridge the "+". */
  lemma AssignedUserResolvesBareNumber(utils: Utils, store: Store, u: User, d: string, limit: int, k: nat)
    requires !IsAdmin(u)
    requires !StartsWith(d, "+")
    requires utils.normalize(d) == d || utils.normalize(d) == "+" + d
    requires k < |store.numbers| && store.numbers[k].twilioNumber == "+" + d
    requires forall j :: 0 <= j < k ==> store.numbers[j].twilioNumber != d && store.numbers[j].twilioNumber != "+" + d
    requires store.numbers[k].assignedUserId == Some(u.id)
    ensures ListMessages(utils, store, u, d, limit).Ok?
  {
    if utils.normalize(d) != d {
      StartsWithConcat("+", d);
      assert ("+" + d)[1..] == d;
    }
    var variants := NumberVariants(utils.normalize, d);
    assert variants == {d, "+" + d};
    var first := FirstNumberIndex(store.numbers, variants);
    assert first == Some(k);
  }

  /** The page size when the client gives no `limit`. */
  const DefaultLimit := 200

  /** Without a `limit` the page holds at most 200 rows, the 200 newest. */
  lemma DefaultPageBound(utils: Utils, store: Store, u: User, twilioNumber: string)
    requires ListMessages(utils, store, u, twilioNumber, DefaultLimit).Ok?
    ensures var page := ListMessages(utils, store, u, twilioNumber, DefaultLimit).value;
            |page| <= 200
            && |page| == if 200 < |MatchingRows(store.messages, NumberVariants(utils.normalize, twilioNumber))| then 200
                         else |MatchingRows(store.messages, NumberVariants(utils.normalize, twilioNumber))|
  {
    assert ClampLimit(DefaultLimit) == 200;
  }

  // --------------------------------------------------------------- mark read

  /** `PATCH /messages/{message_id}/read`. */
  function MarkRead(utils: Utils, store: Store, u: User, messageId: int, isRead: bool): (r: Reply<string>)
    ensures r.result.Err? ==> r.store == store
    ensures (forall j :: 0 <= j < |store.messages| ==> store.messages[j].id != messageId)
            <==> r.result == Err(MessageNotFound)
    ensures match FirstMessageIndex(store.messages, messageId)
            case None => true
            case Some(k) =>
              var owner := OwningNumber(store.numbers, NumberVariants(utils.normalize, store.messages[k].toNumber));
              if !CanViewNumber(u, owner) then r.result == Err(NotAuthorized)
              else
                && r.result == Ok("ok")
                && r.store.numbers == store.numbers
                && r.store.audit == store.audit
                && |r.store.messages| == |store.messages|
                && r.store.messages[k] == store.messages[k].(isRead := Some(isRead))
                && forall j :: 0 <= j < |store.messages| && j != k ==> r.store.messages[j] == store.messages[j]
  {
    match FirstMessageIndex(store.messages, messageId)
    case None => Reply(Err(MessageNotFound), store)
    case Some(k) =>
      var m := store.messages[k];
      var number := OwningNumber(store.numbers, NumberVariants(utils.normalize, m.toNumber));
      if !CanViewNumber(u, number) then Reply(Err(NotAuthorized), store)
      else Reply(Ok("ok"), store.(messages := store.messages[k := m.(isRead := Some(isRead))]))
  }

  /** Marking twice with the same flag leaves the store as marking once. */
  lemma MarkReadIdempotent(utils: Utils, store: Store, u: User, messageId: int, isRead: bool)
    requires MarkRead(utils, store, u, messageId, isRead).result.Ok?
    ensures var once := MarkRead(utils, store, u, messageId, isRead).store;
            MarkRead(utils, once, u, messageId, isRead) == Reply(Ok("ok"), once)
  {
    var k := FirstMessageIndex(store.messages, messageId).value;
    var once := MarkRead(utils, store, u, messageId, isRead).store;
    assert FirstMessageIndex(once.messages, messageId) == Some(k);
    assert once.messages[k].toNumber == store.messages[k].toNumber;
    assert once.messages[k := once.messages[k].(isRead := Some(isRead))] == once.messages;
  }

  // ----------------------------------------------------------------- forward

  /** The provider credentials and the optional shared sending identity. */
  datatype TwilioConfig = TwilioConfig(
    accountSid: Option<string>,
    authToken: Option<string>,
    messagingServiceSid: Option<string>)

  /** Who the outbound SMS is sent as. */
  datatype Sender = MessagingService(sid: string) | FromNumber(number: string)

  /** One `client.messages.create(...)` call. */
  datatype SendRequest = SendRequest(to: string, body: string, sender: Sender)

  /** What that call yields: a message SID, a provider-reported error
      (`msg` attribute if set, and the exception text), or any other failure. */
  datatype SendOutcome =
    | Sent(sid: string)
    | RestError(msg: Option<string>, text: string)
    | OtherError(typeName: string, text: string)

  datatype ForwardResponse = ForwardResponse(status: string, providerMessageSid: string)

  /** The reply plus every provider call the handler made. */
  datatype ForwardRun = ForwardRun(result: Result<ForwardResponse>, store: Store, sends: seq<SendRequest>)

  /** The normalised original sender, or "" when the message has none. */
  function OriginalSender(normalize: string -> string, m: Message): (sender: string)
    ensures !NonEmpty(m.fromNumber) ==> sender == []
    ensures NonEmpty(m.fromNumber) ==> sender == normalize(m.fromNumber.value)
  {
    if NonEmpty(m.fromNumber) then normalize(m.fromNumber.value) else ""
  }

  /** "FWD from <sender>: " when the sender is known, else "FWD: ". */
  function ForwardTag(sender: string): (tag: string)
    ensures sender == [] ==> tag == "FWD: "
    ensures sender != [] ==> |tag| == |sender| + 11 && tag[..9] == "FWD from " && tag[9..|tag| - 2] == sender
                             && tag[|tag| - 2..] == ": "
  {
    if sender != [] then "FWD from " + sender + ": " else "FWD: "
  }

  lemma ForwardTagPrefix(sender: string, text: string)
    ensures StartsWith(ForwardTag(sender) + text, ForwardTag(sender))
    ensures StartsWith(ForwardTag(sender) + text, "FWD")
  {
    var tag := ForwardTag(sender);
    StartsWithConcat(tag, text);
    StartsWithSlice(tag + text, "FWD");
    assert (tag + text)[..3] == tag[..3];
  }

  /** The text that is forwarded: an attribution tag, then the stripped body
      or a placeholder when that is blank. */
  function OutboundBody(normalize: string -> string, m: Message): (body: string)
    ensures StartsWith(body, "FWD")
    ensures var tag := ForwardTag(OriginalSender(normalize, m));
            StartsWith(body, tag) && |body| > |tag|
    ensures var core := Strip(OrEmpty(m.messageBody));
            core != [] ==> |body| >= |core| && body[|body| - |core|..] == core
    ensures Strip(OrEmpty(m.messageBody)) == [] ==>
              |body| >= |EmptyPlaceholder| && body[|body| - |EmptyPlaceholder|..] == EmptyPlaceholder
    ensures var core := Strip(OrEmpty(m.messageBody));
            |body| == |ForwardTag(OriginalSender(normalize, m))| + (if core != [] then |core| else |EmptyPlaceholder|)
  {
    var core := Strip(OrEmpty(m.messageBody));
    var text := if core != [] then core else EmptyPlaceholder;
    var tag := ForwardTag(OriginalSender(normalize, m));
    ForwardTagPrefix(OriginalSender(normalize, m), text);
    assert (tag + text)[|tag + text| - |text|..] == text;
    tag + text
  }

  /** The 502 detail for a failed provider call. */
  function SendFailure(outcome: SendOutcome): (e: HttpError)
    requires !outcome.Sent?
    ensures e.status == 502 && StartsWith(e.detail, SendFailedPrefix)
    ensures outcome.RestError? ==>
              e.detail == SendFailedPrefix + Strip(if NonEmpty(outcome.msg) then outcome.msg.value else outcome.text)
    ensures outcome.OtherError? ==> e.detail == SendFailedPrefix + outcome.typeName + ": " + outcome.text
  {
    var reason := match outcome
      case RestError(msg, text) => Strip(if NonEmpty(msg) then msg.value else text)
      case OtherError(typeName, text) => typeName + ": " + text;
    StartsWithConcat(SendFailedPrefix, reason);
    HttpError(502, SendFailedPrefix + reason)
  }

  /** The messaging service when configured, else the normalised number the
      message arrived on, else nobody. */
  function ChooseSender(config: TwilioConfig, from: string): (s: Option<Sender>)
    ensures NonEmpty(config.messagingServiceSid) ==> s == Some(MessagingService(config.messagingServiceSid.value))
    ensures !NonEmpty(config.messagingServiceSid) && from != [] ==> s == Some(FromNumber(from))
    ensures s.None? <==> !NonEmpty(config.messagingServiceSid) && from == []
  {
    if NonEmpty(config.messagingServiceSid) then Some(MessagingService(config.messagingServiceSid.value))
    else if from != [] then Some(FromNumber(from))
    else None
  }

  /** `POST /messages/{message_id}/forward`. */
  function ForwardMessage(utils: Utils, config: TwilioConfig, send: SendRequest -> SendOutcome,
                          store: Store, u: User, messageId: int, destination: string): (r: ForwardRun)
    ensures r.store.numbers == store.numbers && r.store.messages == store.messages
    ensures |r.sends| <= 1
    ensures r.result.Err? ==> r.store == store
    ensures r.result.Ok? <==> |r.sends| == 1 && send(r.sends[0]).Sent?
    ensures r.result.Ok? ==>
              && r.result.value == ForwardResponse("sent", send(r.sends[0]).sid)
              && |r.store.audit| == |store.audit| + 1
              && r.store.audit[..|store.audit|] == store.audit
              && r.store.audit[|store.audit|].userId == u.id
              && r.store.audit[|store.audit|].action == ForwardAction
              && r.store.audit[|store.audit|].meta.messageId == messageId
              && r.store.audit[|store.audit|].meta.toNumber == r.sends[0].to
              && r.store.audit[|store.audit|].meta.providerMessageSid == r.result.value.providerMessageSid
    ensures |r.sends| == 1 && !send(r.sends[0]).Sent? ==> r.result == Err(SendFailure(send(r.sends[0])))
    ensures (forall j :: 0 <= j < |store.messages| ==> store.messages[j].id != messageId)
            ==> r.result == Err(MessageNotFound) && r.sends == []
    ensures match FirstMessageIndex(store.messages, messageId)
            case None => true
            case Some(k) =>
              var m := store.messages[k];
              var owner := OwningNumber(store.numbers, NumberVariants(utils.normalize, m.toNumber));
              var to := utils.normalize(destination);
              var from := utils.normalize(m.toNumber);
              if !CanViewNumber(u, owner) then r.result == Err(NotAuthorized) && r.sends == []
              else if to == [] then r.result == Err(InvalidDestination) && r.sends == []
              else if !NonEmpty(config.accountSid) || !NonEmpty(config.authToken) then
                r.result == Err(NotConfigured) && r.sends == []
              else if ChooseSender(config, from).None? then r.result == Err(NoSender) && r.sends == []
              else
                && r.sends == [SendRequest(to, OutboundBody(utils.normalize, m), ChooseSender(config, from).value)]
                && (r.result.Ok? ==> r.store.audit[|store.audit|].meta.fromNumber == from)
  {
    match FirstMessageIndex(store.messages, messageId)
    case None => ForwardRun(Err(MessageNotFound), store, [])
    case Some(k) =>
      var m := store.messages[k];
      var number := OwningNumber(store.numbers, NumberVariants(utils.normalize, m.toNumber));
      if !CanViewNumber(u, number) then ForwardRun(Err(NotAuthorized), store, [])
      else
        var to := utils.normalize(destination);
        if to == [] then ForwardRun(Err(InvalidDestination), store, [])
        else if !NonEmpty(config.accountSid) || !NonEmpty(config.authToken) then
          ForwardRun(Err(NotConfigured), store, [])
        else
          var from := utils.normalize(m.toNumber);
          var body := OutboundBody(utils.normalize, m);
          match ChooseSender(config, from)
          case None => ForwardRun(Err(NoSender), store, [])
          case Some(sender) =>
            var request := SendRequest(to, body, sender);
            var outcome := send(request);
            if outcome.Sent? then
              var entry := AuditLog(u.id, ForwardAction, ForwardMeta(messageId, to, from, outcome.sid));
              assert (store.audit + [entry])[..|store.audit|] == store.audit;
              ForwardRun(Ok(ForwardResponse("sent", outcome.sid)), store.(audit := store.audit + [entry]), [request])
            else
              ForwardRun(Err(SendFailure(outcome)), store, [request])
  }

  /** Nothing is sent unless every gate passed: the message exists, the user
      may view its number, the destination normalises to something, and the
      provider credentials are set. */
  lemma ForwardSendsOnlyAfterGates(utils: Utils, config: TwilioConfig, send: SendRequest -> SendOutcome,
                                   store: Store, u: User, messageId: int, destination: string)
    requires |ForwardMessage(utils, config, send, store, u, messageId, destination).sends| == 1
    ensures FirstMessageIndex(store.messages, messageId).Some?
    ensures var m := store.messages[FirstMessageIndex(store.messages, messageId).value];
            CanViewNumber(u, OwningNumber(store.numbers, NumberVariants(utils.normalize, m.toNumber)))
    ensures utils.normalize(destination) != []
    ensures NonEmpty(config.accountSid) && NonEmpty(config.authToken)
  {
  }

  /** The audit table grows by exactly one entry when, and only when, the
      forward succeeds. */
  lemma ForwardAuditsExactlyOnSuccess(utils: Utils, config: TwilioConfig, send: SendRequest -> SendOutcome,
                                      store: Store, u: User, messageId: int, destination: string)
    ensures var r := ForwardMessage(utils, config, send, store, u, messageId, destination);
            |r.store.audit| == |store.audit| + (if r.result.Ok? then 1 else 0)
  {
  }
}
