/** `handleWebhook`: verify the request, read its message type, decode
    the payload, then answer the endpoint handshake or dispatch the reward
    of a notification. */
module Webhook {
  import opened Base
  import opened Headers
  import opened Signature
  import opened Rewards
  import opened Files
  import opened Scrollo

  /** `PayloadJson`, `EventJson` and `RewardJson` as decoded from the body. */
  datatype RewardJson = RewardJson(title: string)
  datatype EventJson = EventJson(userInput: string, reward: RewardJson)
  datatype PayloadJson = PayloadJson(challenge: string, event: EventJson)

  const PLACEHOLDER: Bytes := AsciiBytes("you're my good puppy\n")
  const CALLBACK_TYPE: Bytes := AsciiBytes("webhook_callback_verification")
  const NOTIFICATION_TYPE: Bytes := AsciiBytes("notification")

  /** The constants are the bytes of their texts. */
  lemma PlaceholderText()
    ensures PLACEHOLDER == Utf8("you're my good puppy\n")
  {
    AsciiBytesUtf8("you're my good puppy\n");
  }

  lemma CallbackTypeText()
    ensures CALLBACK_TYPE == Utf8("webhook_callback_verification")
  {
    AsciiBytesUtf8("webhook_callback_verification");
  }

  lemma NotificationTypeText()
    ensures NOTIFICATION_TYPE == Utf8("notification")
  {
    AsciiBytesUtf8("notification");
  }

  /** What the request gets back, and which reward action it dispatches. */
  datatype Reply = Reply(body: Bytes, action: Action)

  /** The decisions of `handleWebhook`. `decoded` is the JSON decoder's
      result on the body, `None` when decoding fails; `draw` is the value
      of `rand.Intn(10)`. */
  function Respond(h: Headers, body: Bytes, keys: seq<Bytes>, mac: MacFn,
                   decoded: Option<PayloadJson>, draw: nat): (r: Reply)
    requires draw < 10
    ensures !Verified(h, body, keys, mac) ==> r == Reply(PLACEHOLDER, NoAction)
    ensures r.action != NoAction ==>
              Verified(h, body, keys, mac) && r.body == [] && decoded.Some? &&
              GetCoolHeader(h, TYPE_HEADER) == Success(NOTIFICATION_TYPE)
  {
    if !Verified(h, body, keys, mac) then
      Reply(PLACEHOLDER, NoAction)
    else
      match GetCoolHeader(h, TYPE_HEADER)
      case Failure(_) => Reply([], NoAction)
      case Success(msgType) =>
        match decoded
        case None => Reply([], NoAction)
        case Some(payload) =>
          if msgType == CALLBACK_TYPE then
            Reply(Utf8(payload.challenge), NoAction)
          else if msgType == NOTIFICATION_TYPE then
            Reply([], Route(payload.event.reward.title, payload.event.userInput, draw))
          else
            Reply([], NoAction)
  }

  /** `handleWebhook(w, r)` on a request with headers `h` and body `body`,
      the two secrets from the environment as candidate keys. The reply
      stands for what is written to `w` and what is handed to the bulb or
      the process launcher; a `scrollo` reward changes `fs`, nothing else
      does. */
  method HandleWebhook(fs: FileSystem, h: Headers, body: Bytes, domSecret: Bytes, subSecret: Bytes,
                       mac: MacFn, decoded: Option<PayloadJson>, draw: nat, faults: Faults)
    returns (reply: Reply, cached: Option<Result<(), ScrolloError>>)
    requires fs.Valid() && draw < 10
    modifies fs
    ensures fs.Valid()
    ensures reply == Respond(h, body, [domSecret, subSecret], mac, decoded, draw)
    ensures reply.action.Scrollo? ==>
              cached.Some? && (fs.State(), cached.value) == CacheAndLinkIn(old(fs.State()), reply.action.text, faults)
    ensures !reply.action.Scrollo? ==> cached.None? && fs.State() == old(fs.State())
  {
    var hmacKeys := [domSecret, subSecret];
    var ok := VerifyWebhook(h, body, hmacKeys, mac);
    if !ok {
      return Reply(PLACEHOLDER, NoAction), None;
    }
    var msgType := GetCoolHeader(h, TYPE_HEADER);
    if msgType.Failure? {
      return Reply([], NoAction), None;
    }
    if decoded.None? {
      return Reply([], NoAction), None;  // bad body
    }
    var payload := decoded.value;
    if msgType.value == CALLBACK_TYPE {
      return Reply(Utf8(payload.challenge), NoAction), None;
    }
    if msgType.value == NOTIFICATION_TYPE {
      var action := Route(payload.event.reward.title, payload.event.userInput, draw);
      cached := Dispatch(fs, action, faults);
      return Reply([], action), cached;
    }
    return Reply([], NoAction), None;  // got something else
  }

  /** Carries out the reward action on the file system: only `scrollo`
      touches it. */
  method Dispatch(fs: FileSystem, action: Action, faults: Faults) returns (cached: Option<Result<(), ScrolloError>>)
    requires fs.Valid()
    modifies fs
    ensures fs.Valid()
    ensures action.Scrollo? ==>
              cached.Some? && (fs.State(), cached.value) == CacheAndLinkIn(old(fs.State()), action.text, faults)
    ensures !action.Scrollo? ==> cached.None? && fs.State() == old(fs.State())
  {
    cached := None;
    if action.Scrollo? {
      var r := CacheAndLink(fs, action.text, faults);
      cached := Some(r);
    }
  }

  /** A request that fails verification gets exactly the placeholder and
      dispatches nothing. */
  lemma UnverifiedGetsPlaceholder(h: Headers, body: Bytes, keys: seq<Bytes>, mac: MacFn,
                                  decoded: Option<PayloadJson>, draw: nat)
    requires draw < 10
    requires !Verified(h, body, keys, mac)
    ensures Respond(h, body, keys, mac, decoded, draw) == Reply(PLACEHOLDER, NoAction)
  {
  }

  /** The handshake echoes the challenge and nothing else. */
  lemma CallbackEchoesChallenge(h: Headers, body: Bytes, keys: seq<Bytes>, mac: MacFn,
                                payload: PayloadJson, draw: nat)
    requires draw < 10
    requires Verified(h, body, keys, mac)
    requires GetCoolHeader(h, TYPE_HEADER) == Success(CALLBACK_TYPE)
    ensures Respond(h, body, keys, mac, Some(payload), draw) == Reply(Utf8(payload.challenge), NoAction)
  {
  }

  /** A verified notification dispatches the route of its reward title. */
  lemma NotificationRoutes(h: Headers, body: Bytes, keys: seq<Bytes>, mac: MacFn,
                           payload: PayloadJson, draw: nat)
    requires draw < 10
    requires Verified(h, body, keys, mac)
    requires GetCoolHeader(h, TYPE_HEADER) == Success(NOTIFICATION_TYPE)
    ensures Respond(h, body, keys, mac, Some(payload), draw) ==
            Reply([], Route(payload.event.reward.title, payload.event.userInput, draw))
  {
    assert NOTIFICATION_TYPE[0] != CALLBACK_TYPE[0];
  }

  /** An action is dispatched only for a verified notification whose
      payload decoded and whose title is one of the five rewards. */
  lemma ActionOnlyForNotification(h: Headers, body: Bytes, keys: seq<Bytes>, mac: MacFn,
                                  decoded: Option<PayloadJson>, draw: nat)
    requires draw < 10
    requires Respond(h, body, keys, mac, decoded, draw).action != NoAction
    ensures Verified(h, body, keys, mac)
    ensures GetCoolHeader(h, TYPE_HEADER) == Success(NOTIFICATION_TYPE)
    ensures decoded.Some?
    ensures decoded.value.event.reward.title in {LIGHTS, END_STREAM, SILENCE, SIMP_BUCKS, SCROLLO}
    ensures Respond(h, body, keys, mac, decoded, draw).body == []
  {
  }

  /** A missing or repeated message-type header, a payload that does not
      decode, or an unknown message type ends the request with an empty
      body and no action. */
  lemma SilentEnds(h: Headers, body: Bytes, keys: seq<Bytes>, mac: MacFn,
                   decoded: Option<PayloadJson>, draw: nat)
    requires draw < 10
    requires Verified(h, body, keys, mac)
    requires || GetCoolHeader(h, TYPE_HEADER).Failure?
             || decoded.None?
             || (GetCoolHeader(h, TYPE_HEADER).value != CALLBACK_TYPE &&
                 GetCoolHeader(h, TYPE_HEADER).value != NOTIFICATION_TYPE)
    ensures Respond(h, body, keys, mac, decoded, draw) == Reply([], NoAction)
  {
  }

  /** A verified `lights` notification with input `100` sets hue 100 on the
      bed bulb. */
  lemma LightsHundredNotification(h: Headers, body: Bytes, keys: seq<Bytes>, mac: MacFn,
                                  challenge: string, draw: nat)
    requires draw < 10
    requires Verified(h, body, keys, mac)
    requires GetCoolHeader(h, TYPE_HEADER) == Success(NOTIFICATION_TYPE)
    ensures var payload := PayloadJson(challenge, EventJson("100", RewardJson(LIGHTS)));
      var reply := Respond(h, body, keys, mac, Some(payload), draw);
      && reply.action.SetColor?
      && reply.action.light.bulb == BedBulb
      && reply.action.light.color.hue == 100
  {
    NotificationRoutes(h, body, keys, mac, PayloadJson(challenge, EventJson("100", RewardJson(LIGHTS))), draw);
    LightsHundred();
  }
}
