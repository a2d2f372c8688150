/** The session side of the AMI client: routing each parsed message
    (`_dispatch_messages`), the subscription table (`_subscriptions` and
    `subscribe`), the reply handling of `_send_command` and the login check
    of `_do_login`.  The socket, the scheduler's `fire`/`wait` rendezvous and
    task spawning are abstracted: a route says where a message would go, and
    a call sees the replies fired for its token as a sequence. */
module Session {
  import opened Common
  import opened Text
  import opened Frame

  const Event: string := "event"
  const ResponseKey: string := "response"
  const MessageKey: string := "message"

  /** `self._events`: the only names `subscribe` accepts, matched exactly. */
  const KnownEvents: seq<string> := [
    "Newchannel", "Hangup", "Newexten", "Newstate",
    "Reload", "Shutdown", "ExtensionsStatus", "Rename",
    "Newcallerid", "Alarm", "AlarmClear",
    "Agentcallbacklogoff", "Agentcallbacklogin",
    "Agentlogin", "Agentlogoff", "MeetmeJoin",
    "MeetmeLeave", "MessageWaiting", "Join",
    "Leave", "AgentCalled", "ParkedCall",
    "UnParkedCall", "ParkedCalls", "Cdr",
    "ParkedCallsComplete", "QueueParams",
    "QueueMember"
  ]

  /** The known event names as a set. */
  const KnownEventSet: set<string> := set e | e in KnownEvents

  /** The subscription table: every known event name, with `None` until
      its first subscriber arrives. */
  type Table<H> = map<string, Option<seq<H>>>

  /** The handlers registered for `event`; no entry and `None` both mean none. */
  function HandlersOf<H>(subs: Table<H>, event: string): seq<H> {
    if event in subs && subs[event].Some? then subs[event].value else []
  }

  // ---------------------------------------------------------------------
  // Routing

  /** Where the read loop sends one parsed message: to the caller waiting on
      its `actionid`, to a fresh task per subscribed handler, or nowhere. */
  datatype Route<H> =
    | ToCaller(token: string, message: Message)
    | ToHandlers(handlers: seq<H>, message: Message)
    | Drop

  /** One iteration of `_dispatch_messages` after parsing. */
  function RouteMessage<H>(msg: Message, subs: Table<H>): (r: Route<H>)
    ensures r.ToCaller? <==> ActionId in msg
    ensures r.ToCaller? ==> r.token == msg[ActionId] && r.message == msg
    ensures r.ToHandlers? <==>
      ActionId !in msg && Event in msg && HandlersOf(subs, msg[Event]) != []
    ensures r.ToHandlers? ==> r.handlers == HandlersOf(subs, msg[Event]) && r.message == msg
  {
    if ActionId in msg then
      ToCaller(msg[ActionId], msg)
    else if Event in msg then
      var event := msg[Event];
      if event in subs && subs[event].Some? && subs[event].value != [] then
        ToHandlers(subs[event].value, msg)
      else
        Drop
    else
      Drop
  }

  /** After `handler` is subscribed to `event`, an unsolicited message
      carrying that event reaches the old handlers and then `handler`. */
  lemma RouteAfterSubscribe<H>(subs: Table<H>, event: string, handler: H, msg: Message)
    requires ActionId !in msg && Event in msg && msg[Event] == event
    ensures RouteMessage(msg, subs[event := Some(HandlersOf(subs, event) + [handler])])
         == ToHandlers(HandlersOf(subs, event) + [handler], msg)
  {
  }

  /** The messages the read loop fired for `token`, in routing order. */
  function RepliesFor<H>(routes: seq<Route<H>>, token: string): seq<Message> {
    if routes == [] then []
    else
      var rest := RepliesFor(routes[1..], token);
      match routes[0]
      case ToCaller(t, m) => if t == token then [m] + rest else rest
      case _ => rest
  }

  /** A call sees exactly the messages fired for its token, no others. */
  lemma {:induction false} RepliesForMeaning<H>(routes: seq<Route<H>>, token: string)
    ensures |RepliesFor(routes, token)| <= |routes|
    ensures forall m :: m in RepliesFor(routes, token) ==> ToCaller(token, m) in routes
    ensures forall m :: ToCaller(token, m) in routes ==> m in RepliesFor(routes, token)
  {
    if routes != [] {
      RepliesForMeaning(routes[1..], token);
      assert forall r :: r in routes <==> r == routes[0] || r in routes[1..];
    }
  }

  /** Every `ToCaller` route names the token its message carries, as
      `RouteMessage` guarantees. */
  ghost predicate Correlated<H>(routes: seq<Route<H>>) {
    forall i :: 0 <= i < |routes| && routes[i].ToCaller? ==>
      ActionId in routes[i].message && routes[i].message[ActionId] == routes[i].token
  }

  lemma RepliesCarryToken<H>(routes: seq<Route<H>>, token: string)
    requires Correlated(routes)
    ensures forall m :: m in RepliesFor(routes, token) ==> ActionId in m && m[ActionId] == token
  {
    RepliesForMeaning(routes, token);
    forall m | m in RepliesFor(routes, token) ensures ActionId in m && m[ActionId] == token {
      var i :| 0 <= i < |routes| && routes[i] == ToCaller(token, m);
    }
  }

  // ---------------------------------------------------------------------
  // The client object

  class AmiClient<H> {
    var username: string
    var secret: string
    var subscriptions: Table<H>

    /** The table always holds exactly the known event names. */
    ghost predicate Valid()
      reads this
    {
      subscriptions.Keys == KnownEventSet
    }

    /** The state `__init__` sets up: credentials default to the empty
        string, every known event starts with no handler list. */
    constructor (username: Option<string>, secret: Option<string>)
      ensures Valid()
      ensures this.username == (if username.Some? then username.value else "")
      ensures this.secret == (if secret.Some? then secret.value else "")
      ensures forall e :: e in subscriptions ==> subscriptions[e] == None
      ensures forall e :: HandlersOf(subscriptions, e) == []
    {
      this.username := if username.Some? then username.value else "";
      this.secret := if secret.Some? then secret.value else "";
      subscriptions := map e | e in KnownEvents :: None;
    }

    /** `subscribe`: an unknown name is refused and changes nothing; a known
        name gets `handler` appended to its list (created on first use). */
    method Subscribe(event: string, handler: H) returns (r: Result<()>)
      requires Valid()
      modifies this`subscriptions
      ensures Valid()
      ensures event !in KnownEvents ==>
        r == Err(UnknownEvent(event)) && subscriptions == old(subscriptions)
      ensures event in KnownEvents ==>
        r == Ok(()) &&
        subscriptions == old(subscriptions)[event := Some(HandlersOf(old(subscriptions), event) + [handler])]
      ensures HandlersOf(subscriptions, event) ==
        if event in KnownEvents then HandlersOf(old(subscriptions), event) + [handler]
        else HandlersOf(old(subscriptions), event)
      ensures forall e :: e != event ==> HandlersOf(subscriptions, e) == HandlersOf(old(subscriptions), e)
    {
      if event !in subscriptions {
        return Err(UnknownEvent(event));
      }
      if subscriptions[event].None? {
        subscriptions := subscriptions[event := Some([])];
      }
      subscriptions := subscriptions[event := Some(subscriptions[event].value + [handler])];
      r := Ok(());
    }

    /** `_dispatch_messages` over the frames read so far: each frame is
        parsed and routed against the current table, in arrival order. */
    method Dispatch(frames: seq<string>) returns (routes: seq<Route<H>>)
      ensures |routes| == |frames|
      ensures forall i :: 0 <= i < |frames| ==>
        routes[i] == RouteMessage(ParseFrame(Some(frames[i])), subscriptions)
      ensures forall t, m :: m in RepliesFor(routes, t) ==> ActionId in m && m[ActionId] == t
    {
      routes := [];
      for i := 0 to |frames|
        invariant |routes| == i
        invariant forall j :: 0 <= j < i ==>
          routes[j] == RouteMessage(ParseFrame(Some(frames[j])), subscriptions)
      {
        var parsed := Parse(Some(frames[i]));
        routes := routes + [RouteMessage(parsed, subscriptions)];
      }
      forall t ensures forall m :: m in RepliesFor(routes, t) ==> ActionId in m && m[ActionId] == t {
        RepliesCarryToken(routes, t);
      }
    }

    /** `_do_login`: send the login command and accept only a
        `response: Success` reply. */
    method Login(token: string, replies: seq<Message>) returns (sent: Option<string>, r: Outcome<()>)
      ensures sent == Some(Serialize(WithActionId(LoginCommand(username, secret), token)))
      ensures r.Blocked? <==> replies == []
      ensures r == Returned(()) <==>
        replies != [] && ResponseKey in replies[0] && replies[0][ResponseKey] == "Success"
      ensures r.Returned? ==> r == Returned(())
      ensures r.Raised? && ResponseKey !in replies[0] ==> r.error == MissingField(ResponseKey)
      ensures r.Raised? && ResponseKey in replies[0] ==>
        r.error == (if MessageKey in replies[0] then CommandFailed(replies[0][MessageKey])
                    else MissingField(MessageKey))
    {
      var reply;
      sent, reply := SendCommand(LoginCommand(username, secret), token, None, replies);
      if reply.Returned? {
        r := LoginVerdict(reply.value.message);
      } else if reply.Raised? {
        r := Raised(reply.error);
      } else {
        r := Blocked;
      }
    }
  }

  // ---------------------------------------------------------------------
  // Replies to one command

  /** What a call hands back: one message, or the accumulated list. */
  datatype Reply = Single(message: Message) | Collected(messages: seq<Message>)

  /** The end of a call: it returned, it raised, or it is still waiting for a
      reply that has not arrived among those given. */
  datatype Outcome<T> = Returned(value: T) | Raised(error: Failure) | Blocked

  /** `m` is the message that ends a stop-event call. */
  predicate IsStop(m: Message, stop: string) {
    Event in m && m[Event] == stop
  }

  /** Position of the first reply carrying the stop event, or `|replies|`. */
  function StopIndex(replies: seq<Message>, stop: string): (k: nat)
    ensures k <= |replies|
    ensures k < |replies| ==> IsStop(replies[k], stop)
    ensures forall j :: 0 <= j < k ==> !IsStop(replies[j], stop)
  {
    if replies == [] then 0
    else if IsStop(replies[0], stop) then 0
    else 1 + StopIndex(replies[1..], stop)
  }

  /** How a call ends, given the replies fired for its token in arrival order. */
  function CallOutcome(replies: seq<Message>, stopEvent: Option<string>): (r: Outcome<Reply>)
    ensures replies == [] ==> r == Blocked
    ensures r.Raised? <==>
      replies != [] && (ResponseKey !in replies[0] || replies[0][ResponseKey] == "Error")
    ensures r.Raised? ==>
      (ResponseKey !in replies[0] ==> r.error == MissingField(ResponseKey)) &&
      (ResponseKey in replies[0] ==>
        r.error == (if MessageKey in replies[0] then CommandFailed(replies[0][MessageKey])
                    else MissingField(MessageKey)))
    ensures r.Returned? && stopEvent.None? ==> r.value == Single(replies[0])
    ensures r.Returned? && stopEvent.Some? ==>
      r.value.Collected? && var c := r.value.messages;
      1 <= |c| <= |replies| && c == replies[..|c|] &&
      IsStop(c[|c| - 1], stopEvent.value) &&
      forall j :: 0 <= j < |c| - 1 ==> !IsStop(c[j], stopEvent.value)
    ensures r.Blocked? && replies != [] ==>
      stopEvent.Some? && forall j :: 0 <= j < |replies| ==> !IsStop(replies[j], stopEvent.value)
  {
    if replies == [] then Blocked
    else
      var first := replies[0];
      if ResponseKey !in first then Raised(MissingField(ResponseKey))
      else if first[ResponseKey] == "Error" then
        Raised(if MessageKey in first then CommandFailed(first[MessageKey]) else MissingField(MessageKey))
      else
        match stopEvent
        case None => Returned(Single(first))
        case Some(stop) =>
          var k := StopIndex(replies, stop);
          if k == |replies| then Blocked else Returned(Collected(replies[..k + 1]))
  }

  /** Replies arriving after a call has ended do not change how it ended. */
  lemma {:induction false} LateRepliesIgnored(replies: seq<Message>, later: seq<Message>, stopEvent: Option<string>)
    requires !CallOutcome(replies, stopEvent).Blocked?
    ensures CallOutcome(replies + later, stopEvent) == CallOutcome(replies, stopEvent)
  {
    var all := replies + later;
    assert all[0] == replies[0];
    if stopEvent.Some? && ResponseKey in replies[0] && replies[0][ResponseKey] != "Error" {
      StopIndexExtends(replies, later, stopEvent.value);
      var k := StopIndex(replies, stopEvent.value);
      assert all[..k + 1] == replies[..k + 1];
    }
  }

  lemma {:induction false} StopIndexExtends(replies: seq<Message>, later: seq<Message>, stop: string)
    requires StopIndex(replies, stop) < |replies|
    ensures StopIndex(replies + later, stop) == StopIndex(replies, stop)
  {
    assert (replies + later)[0] == replies[0];
    if !IsStop(replies[0], stop) {
      assert (replies + later)[1..] == replies[1..] + later;
      StopIndexExtends(replies[1..], later, stop);
    }
  }

  /** The reply handling at the end of `_send_command`: the first reply is
      checked for an error; without a stop event it is returned, with one
      the replies are collected up to and including the stop event. */
  method AwaitReplies(replies: seq<Message>, stopEvent: Option<string>) returns (r: Outcome<Reply>)
    ensures r == CallOutcome(replies, stopEvent)
  {
    if replies == [] {
      return Blocked;
    }
    var response := replies[0];
    if ResponseKey !in response {
      return Raised(MissingField(ResponseKey));
    }
    if response[ResponseKey] == "Error" {
      if MessageKey !in response {
        return Raised(MissingField(MessageKey));
      }
      return Raised(CommandFailed(response[MessageKey]));
    }
    if stopEvent.None? {
      return Returned(Single(response));
    }
    var stop := stopEvent.value;
    var responseList: seq<Message> := [];
    var i := 0;
    while Event !in response || stop != response[Event]
      invariant 0 <= i < |replies| && response == replies[i]
      invariant responseList == replies[..i]
      invariant forall j :: 0 <= j < i ==> !IsStop(replies[j], stop)
      decreases |replies| - i
    {
      responseList := responseList + [response];
      i := i + 1;
      if i == |replies| {
        assert StopIndex(replies, stop) == |replies|;
        return Blocked;
      }
      response := replies[i];
    }
    assert StopIndex(replies, stop) == i;
    responseList := responseList + [response];
    assert responseList == replies[..i + 1];
    return Returned(Collected(responseList));
  }

  /** `_send_command` as a whole: refuse an empty command before anything
      is sent, otherwise send the encoded frame and wait for the replies. */
  method SendCommand(cmd: seq<Field>, token: string, stopEvent: Option<string>, replies: seq<Message>)
    returns (sent: Option<string>, r: Outcome<Reply>)
    requires DistinctKeys(cmd)
    ensures cmd == [] ==> sent == None && r == Raised(EmptyCommand)
    ensures cmd != [] ==> sent == Some(EncodeCommand(cmd, token).value) && r == CallOutcome(replies, stopEvent)
  {
    var frame := EncodeCommand(cmd, token);
    if frame.Err? {
      return None, Raised(frame.error);
    }
    sent := Some(frame.value);
    r := AwaitReplies(replies, stopEvent);
  }

  // ---------------------------------------------------------------------
  // Login

  /** The fields of the login action. */
  function LoginCommand(username: string, secret: string): (cmd: seq<Field>)
    ensures DistinctKeys(cmd) && cmd != []
  {
    [("action", "login"), ("username", username), ("secret", secret)]
  }

  /** The login command carries no `actionid` of its own, so the token is
      added as a fourth field. */
  lemma LoginCommandWithToken(username: string, secret: string, token: string)
    ensures WithActionId(LoginCommand(username, secret), token) ==
      LoginCommand(username, secret) + [(ActionId, token)]
  {
    var cmd := LoginCommand(username, secret);
    assert "username" != ActionId by { assert "username"[0] != ActionId[0]; }
    assert "action" != ActionId && "secret" != ActionId;
    WithActionIdAppends(cmd, token);
  }

  /** The check `_do_login` applies to the reply of the login call: only
      `response: Success` is accepted; anything else raises with the
      reply's `message`. */
  function LoginVerdict(response: Message): (r: Outcome<()>)
    ensures r == Returned(()) <==> ResponseKey in response && response[ResponseKey] == "Success"
    ensures r.Returned? ==> r == Returned(())
    ensures !r.Returned? ==>
      r == Raised(if MessageKey in response then CommandFailed(response[MessageKey])
                  else MissingField(MessageKey))
  {
    if ResponseKey !in response || response[ResponseKey] != "Success" then
      Raised(if MessageKey in response then CommandFailed(response[MessageKey]) else MissingField(MessageKey))
    else
      Returned(())
  }
}
