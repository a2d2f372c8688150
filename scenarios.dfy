/** Worked sessions: concrete frames and reply streams worked through the
    model, showing the client's behaviour on concrete sessions. */
module Scenarios {
  import opened Common
  import opened Text
  import opened Frame
  import opened Session

  const LoginReplyFrame: string :=
    "response: Success\r\n" + "message: Authentication accepted\r\n" + "actionid: T1\r\n" + "\r\n"
  const HangupFrame: string := "event: Hangup\r\n" + "channel: SIP/100\r\n" + "\r\n"

  function LoginReply(): Message {
    map["response" := "Success", "message" := "Authentication accepted", "actionid" := "T1"]
  }

  function Hangup(): Message {
    map["event" := "Hangup", "channel" := "SIP/100"]
  }

  function LoginReplyFields(): seq<Field> {
    [("response", "Success"), ("message", "Authentication accepted"), ("actionid", "T1")]
  }

  function HangupFields(): seq<Field> {
    [("event", "Hangup"), ("channel", "SIP/100")]
  }

  /** Three encoded lines, written out one after the other. */
  lemma LinesOfThree(fields: seq<Field>)
    requires |fields| == 3
    ensures Lines(fields) ==
      FieldLine(fields[0]) + CRLF + (FieldLine(fields[1]) + CRLF) + (FieldLine(fields[2]) + CRLF)
  {
    assert fields[1..][1..][1..] == [];
    assert Lines(fields[2..]) == FieldLine(fields[2]) + CRLF;
  }

  lemma ResponseLine()
    ensures FieldLine(("response", "Success")) + CRLF == "response: Success\r\n"
  {
  }

  lemma MessageLine()
    ensures FieldLine(("message", "Authentication accepted")) + CRLF == "message: Authentication accepted\r\n"
  {
    var v := "Authentication accepted";
    assert "message" + Colon == "message: ";
    assert "message: " + v + CRLF == "message: Authentication accepted\r\n";
  }

  lemma ActionIdLine()
    ensures FieldLine(("actionid", "T1")) + CRLF == "actionid: T1\r\n"
  {
  }

  lemma SerializeLoginReply()
    ensures Serialize(LoginReplyFields()) == LoginReplyFrame
  {
    LinesOfThree(LoginReplyFields());
    ResponseLine();
    MessageLine();
    ActionIdLine();
  }

  lemma LoginReplyWireSafe()
    ensures WireSafe(LoginReplyFields())
  {
    PlainIsClean("response"); PlainIsClean("Success");
    PlainIsClean("message"); PlainIsClean("Authentication accepted");
    PlainIsClean("actionid"); PlainIsClean("T1");
  }

  lemma ParseLoginReply()
    ensures ParseFrame(Some(LoginReplyFrame)) == LoginReply()
  {
    SerializeLoginReply();
    LoginReplyWireSafe();
    ParseSerialized(LoginReplyFields());
  }

  lemma SerializeHangup()
    ensures Serialize(HangupFields()) == HangupFrame
  {
    var fields := HangupFields();
    assert FieldLine(fields[0]) + CRLF == "event: Hangup\r\n";
    assert FieldLine(fields[1]) + CRLF == "channel: SIP/100\r\n";
    assert Lines(fields[1..]) == "channel: SIP/100\r\n";
  }

  lemma HangupWireSafe()
    ensures WireSafe(HangupFields())
  {
    PlainIsClean("event"); PlainIsClean("Hangup");
    PlainIsClean("channel"); PlainIsClean("SIP/100");
  }

  lemma ParseHangup()
    ensures ParseFrame(Some(HangupFrame)) == Hangup()
  {
    SerializeHangup();
    HangupWireSafe();
    ParseSerialized(HangupFields());
  }

  /** The login reply arrives on the wire and the client logs in. */
  method LoginSession() returns (sent: Option<string>, r: Outcome<()>)
    ensures sent == Some(Serialize(LoginCommand("admin", "secret") + [(ActionId, "T1")]))
    ensures r == Returned(())
  {
    var client := new AmiClient<nat>(Some("admin"), Some("secret"));
    ParseLoginReply();
    var reply := LoginReply();
    assert ActionId in reply && reply[ActionId] == "T1";
    assert reply[ResponseKey] == "Success";
    var routes := client.Dispatch([LoginReplyFrame]);
    assert routes == [ToCaller("T1", reply)];
    assert routes[1..] == [];
    assert RepliesFor(routes[1..], "T1") == [];
    assert RepliesFor(routes, "T1") == [reply] + RepliesFor(routes[1..], "T1");
    var replies := RepliesFor(routes, "T1");
    assert replies == [reply];
    LoginCommandWithToken("admin", "secret", "T1");
    sent, r := client.Login("T1", replies);
  }

  /** A login refused with `response: Error` raises with the server's
      message. */
  method LoginRefused() returns (r: Outcome<()>)
    ensures r == Raised(CommandFailed("Authentication failed"))
  {
    var client := new AmiClient<nat>(Some("admin"), Some("wrong"));
    var sent;
    sent, r := client.Login("T1", [map["response" := "Error", "actionid" := "T1",
                                       "message" := "Authentication failed"]]);
  }

  /** A login answered with `response: Goodbye` is refused as well: only
      `Success` is accepted. */
  method LoginGoodbye() returns (r: Outcome<()>)
    ensures r == Raised(CommandFailed("Thanks for all the fish."))
  {
    var client := new AmiClient<nat>(Some("admin"), Some("secret"));
    var sent;
    sent, r := client.Login("T2", [map["response" := "Goodbye", "actionid" := "T2",
                                       "message" := "Thanks for all the fish."]]);
  }

  /** A login reply without a `response` field fails on the missing key
      before the login check looks at it. */
  method LoginWithoutResponse() returns (r: Outcome<()>)
    ensures r == Raised(MissingField("response"))
  {
    var client := new AmiClient<nat>(Some("admin"), Some("secret"));
    var sent;
    sent, r := client.Login("T3", [map["actionid" := "T3", "message" := "x"]]);
  }

  /** Event names are matched exactly: the lower-case spelling of a known
      name is refused. */
  method LowerCaseNameRefused() returns (r: Result<()>, handlers: seq<nat>)
    ensures r == Err(UnknownEvent("hangup"))
    ensures handlers == []
  {
    var client := new AmiClient<nat>(None, None);
    r := client.Subscribe("hangup", 8);
    handlers := HandlersOf(client.subscriptions, "hangup");
  }

  /** A fresh client with handlers 7 and then 9 subscribed to `Hangup`. */
  method HangupSubscribers() returns (client: AmiClient<nat>)
    ensures fresh(client) && client.Valid()
    ensures HandlersOf(client.subscriptions, "Hangup") == [7, 9]
  {
    client := new AmiClient<nat>(None, None);
    var ok := client.Subscribe("Hangup", 7);
    ok := client.Subscribe("Hangup", 9);
  }

  /** Two handlers subscribe to `Hangup` and an unsolicited hangup frame
      reaches both, in subscription order, with its values verbatim. */
  method HangupSession() returns (routes: seq<Route<nat>>)
    ensures routes == [ToHandlers([7, 9], Hangup())]
  {
    var client := HangupSubscribers();
    ParseHangup();
    var msg := Hangup();
    assert ActionId !in msg && Event in msg && msg[Event] == "Hangup";
    assert RouteMessage(msg, client.subscriptions) == ToHandlers([7, 9], msg);
    routes := client.Dispatch([HangupFrame]);
  }

  function QueueStart(): Message {
    map["actionid" := "T1", "response" := "Success", "message" := "Queue status will follow"]
  }
  function Pong(): Message { map["actionid" := "T2", "response" := "Success", "ping" := "Pong"] }
  function QueueMember(): Message { map["actionid" := "T1", "event" := "QueueMember", "queue" := "sales"] }
  function QueueDone(): Message { map["actionid" := "T1", "event" := "QueueStatusComplete"] }
  function LateError(): Message { map["actionid" := "T1", "response" := "Error", "message" := "late"] }

  function Subs(): Table<nat> { map["Hangup" := Some([7])] }

  /** The read loop's routes for six messages: replies for two outstanding
      commands interleaved with an unsolicited event. */
  function InterleavedRoutes(): seq<Route<nat>> {
    [RouteMessage(QueueStart(), Subs()), RouteMessage(Pong(), Subs()),
     RouteMessage(QueueMember(), Subs()), RouteMessage(Hangup(), Subs()),
     RouteMessage(QueueDone(), Subs()), RouteMessage(LateError(), Subs())]
  }

  lemma InterleavedRouting()
    ensures InterleavedRoutes() ==
      [ToCaller("T1", QueueStart()), ToCaller("T2", Pong()), ToCaller("T1", QueueMember()),
       ToHandlers([7], Hangup()), ToCaller("T1", QueueDone()), ToCaller("T1", LateError())]
  {
    assert RouteMessage(QueueStart(), Subs()) == ToCaller("T1", QueueStart());
    assert RouteMessage(Pong(), Subs()) == ToCaller("T2", Pong());
    assert RouteMessage(QueueMember(), Subs()) == ToCaller("T1", QueueMember());
    assert "actionid" !in Hangup();
    assert RouteMessage(Hangup(), Subs()) == ToHandlers([7], Hangup());
    assert RouteMessage(QueueDone(), Subs()) == ToCaller("T1", QueueDone());
    assert RouteMessage(LateError(), Subs()) == ToCaller("T1", LateError());
  }

  /** Each command sees only its own replies, in arrival order. */
  lemma InterleavedCorrelation()
    ensures RepliesFor(InterleavedRoutes(), "T1") == [QueueStart(), QueueMember(), QueueDone(), LateError()]
    ensures RepliesFor(InterleavedRoutes(), "T2") == [Pong()]
  {
    InterleavedRouting();
    var r := InterleavedRoutes();
    assert r[5..][1..] == [];
    assert RepliesFor(r[5..], "T1") == [LateError()] && RepliesFor(r[5..], "T2") == [];
    assert r[4..][1..] == r[5..];
    assert RepliesFor(r[4..], "T1") == [QueueDone(), LateError()] && RepliesFor(r[4..], "T2") == [];
    assert r[3..][1..] == r[4..];
    assert RepliesFor(r[3..], "T1") == [QueueDone(), LateError()] && RepliesFor(r[3..], "T2") == [];
    assert r[2..][1..] == r[3..];
    assert RepliesFor(r[2..], "T1") == [QueueMember(), QueueDone(), LateError()];
    assert RepliesFor(r[2..], "T2") == [];
    assert r[1..][1..] == r[2..];
    assert RepliesFor(r[1..], "T1") == [QueueMember(), QueueDone(), LateError()];
    assert RepliesFor(r[1..], "T2") == [Pong()];
  }

  /** The stop-event call ends at `QueueStatusComplete` and never looks at
      the error reply that arrives after it; the plain call returns its
      single reply. */
  lemma InterleavedOutcomes()
    ensures CallOutcome([QueueStart(), QueueMember(), QueueDone(), LateError()], Some("QueueStatusComplete"))
         == Returned(Collected([QueueStart(), QueueMember(), QueueDone()]))
    ensures CallOutcome([Pong()], None) == Returned(Single(Pong()))
  {
    var t1 := [QueueStart(), QueueMember(), QueueDone(), LateError()];
    assert !IsStop(t1[0], "QueueStatusComplete") && !IsStop(t1[1], "QueueStatusComplete");
    assert IsStop(t1[2], "QueueStatusComplete");
    assert t1[1..][1..] == [QueueDone(), LateError()];
    assert StopIndex(t1, "QueueStatusComplete") == 2;
    assert t1[..3] == [QueueStart(), QueueMember(), QueueDone()];
  }
}
