/** Submitting an extrinsic and watching its status: the message handlers run on the socket thread
    and hand one string to the caller through a channel. */
module Watch {
  import opened Scale
  import opened Registry
  import opened Hex
  import opened JsonText

  /** A frame on the socket: not text at all, text that is not JSON, or JSON. */
  datatype Message = NotText | NotJson | Parsed(value: Json)

  datatype XtStatus = Finalized | InBlock | Broadcast | Ready | Future | SubmitOnly | Error | Unknown

  // ------------------------------------------------------------ reading one message

  /** `parse_status`; `Panic` is an `unwrap` on a malformed error object. */
  datatype Parse = Status(status: XtStatus, value: Option<string>) | Rejected | Panic

  predicate StringOrAbsent(j: Json, key: string)
  {
    j.Obj? && (key in j.fields ==> j.fields[key].Str?)
  }

  predicate GoodErrorObject(e: Json)
  {
    && e.Obj? && StringOrAbsent(e, "message") && StringOrAbsent(e, "data")
    && ("code" in e.fields ==> e.fields["code"].Number? && e.fields["code"].isI64)
  }

  function ExtrinsicError(j: Json): (r: Parse)
  {
    if GoodErrorObject(Get(j, "error")) then Rejected else Panic
  }

  function ParseStatus(contents: Json -> string, msg: Message): (r: Parse)
  {
    match msg
    case NotText => Panic
    case NotJson => Rejected
    case Parsed(j) =>
      if Get(j, "error").Obj? then ExtrinsicError(j) else
      var result := Get(Get(j, "params"), "result");
      if result.Obj? then
        if "finalized" in result.fields then Status(Finalized, Some(Render(contents, result.fields["finalized"])))
        else if "inBlock" in result.fields then Status(InBlock, Some(Render(contents, result.fields["inBlock"])))
        else if "broadcast" in result.fields then Status(Broadcast, Some(Render(contents, result.fields["broadcast"])))
        else Status(Unknown, None)
      else if result == Json.Str("ready") then Status(Ready, None)
      else if result == Json.Str("future") then Status(Future, None)
      else Status(Unknown, None)
  }

  function ResultFromResponse(msg: Message): (r: Parse)
  {
    match msg
    case NotText => Panic
    case NotJson => Rejected
    case Parsed(j) => if Get(j, "result").Str? then Status(SubmitOnly, Some(Get(j, "result").s)) else ExtrinsicError(j)
  }

  // ------------------------------------------------------------ the handlers

  /** What a handler does with a message: wait on, hand over a value, hand over a value and fail, or
      take the thread down. */
  datatype Reaction = Continue | Finish(value: string) | FinishWithError(value: string) | Crash

  function ValueOr(v: Option<string>): (s: string)
  {
    if v.Some? then v.value else ""
  }

  predicate Watchable(exitOn: XtStatus)
  {
    exitOn.Finalized? || exitOn.InBlock? || exitOn.Broadcast? || exitOn.Ready? || exitOn.SubmitOnly?
  }

  function React(contents: Json -> string, exitOn: XtStatus, msg: Message): (r: Reaction)
    requires Watchable(exitOn)
  {
    if exitOn.SubmitOnly? then
      match ResultFromResponse(msg)
      case Status(_, v) => Finish(ValueOr(v))
      case Rejected => FinishWithError("")
      case Panic => Crash
    else
      match ParseStatus(contents, msg)
      case Rejected => FinishWithError("")
      case Panic => Crash
      case Status(status, v) =>
        if status.Finalized? then Finish(ValueOr(v))
        else if status.InBlock? && exitOn.InBlock? then Finish(ValueOr(v))
        else if status.Broadcast? && exitOn.Broadcast? then Finish("")
        else if status.Ready? && exitOn.Ready? then Finish("")
        else if status.Future? then Finish("")
        else Continue
  }

  datatype State = State(alive: bool, closed: bool, channel: seq<string>)

  /** After the socket is asked to close, messages already under way still reach the handler; after
      an error or a panic none does. */
  function Step(contents: Json -> string, exitOn: XtStatus, st: State, msg: Message): (r: State)
    requires Watchable(exitOn)
  {
    if !st.alive then st else
    match React(contents, exitOn, msg)
    case Continue => st
    case Finish(v) => State(true, true, st.channel + [v])
    case FinishWithError(v) => State(false, true, st.channel + [v])
    case Crash => State(false, st.closed, st.channel)
  }

  function RunTrace(contents: Json -> string, exitOn: XtStatus, trace: seq<Message>): (r: State)
    requires Watchable(exitOn)
  {
    if trace == [] then State(true, false, []) else
    Step(contents, exitOn, RunTrace(contents, exitOn, trace[..|trace| - 1]), trace[|trace| - 1])
  }

  /** The socket thread. */
  class Session {
    var alive: bool
    var closed: bool
    var channel: seq<string>

    ghost function Now(): (s: State)
      reads this
    {
      State(alive, closed, channel)
    }

    constructor ()
      ensures Now() == State(true, false, [])
    {
      alive, closed, channel := true, false, [];
    }

    method EndProcess(value: Option<string>)
      modifies this
      ensures Now() == State(old(alive), true, old(channel) + [if value.Some? then value.value else ""])
    {
      var val := ValueOr(value);
      closed := true;
      channel := channel + [val];
    }

    method OnMessage(contents: Json -> string, exitOn: XtStatus, msg: Message)
      requires Watchable(exitOn) && alive
      modifies this
      ensures Now() == Step(contents, exitOn, old(Now()), msg)
    {
      var parsed := if exitOn.SubmitOnly? then ResultFromResponse(msg) else ParseStatus(contents, msg);
      match parsed {
        case Panic => alive := false;
        case Rejected =>
          EndProcess(None);
          alive := false;
        case Status(status, v) =>
          if exitOn.SubmitOnly? {
            EndProcess(v);
          } else {
            match status {
              case Finalized => EndProcess(v);
              case InBlock => if exitOn.InBlock? { EndProcess(v); }
              case Broadcast => if exitOn.Broadcast? { EndProcess(None); }
              case Ready => if exitOn.Ready? { EndProcess(None); }
              case Future => EndProcess(None);
              case _ =>
            }
          }
      }
    }
  }

  // ------------------------------------------------------------ the caller

  datatype Outcome = Waiting | Success(hash: Option<seq<byte>>) | InvalidHex | Disconnected | Unsupported

  /** What `send_extrinsic` makes of the value it received. */
  function Interpret(exitOn: XtStatus, value: string): (r: Outcome)
  {
    if exitOn.Finalized? || exitOn.InBlock? then
      var h := HashFromHex(value);
      if h.Some? then Success(h) else InvalidHex
    else Success(None)
  }

  function Taken(exitOn: XtStatus, st: State): (r: Outcome)
  {
    if st.channel != [] then Interpret(exitOn, st.channel[0]) else if st.alive then Waiting else Disconnected
  }

  /** The outcome of `send_extrinsic` after the messages of `trace` arrived. */
  function SendOutcome(contents: Json -> string, exitOn: XtStatus, trace: seq<Message>): (r: Outcome)
  {
    if !Watchable(exitOn) then Unsupported else Taken(exitOn, RunTrace(contents, exitOn, trace))
  }

  method SendExtrinsic(contents: Json -> string, exitOn: XtStatus, trace: seq<Message>) returns (r: Outcome)
    ensures r == SendOutcome(contents, exitOn, trace)
  {
    if !Watchable(exitOn) { return Unsupported; }
    var session := new Session();
    for i := 0 to |trace|
      invariant fresh(session)
      invariant session.Now() == RunTrace(contents, exitOn, trace[..i])
    {
      assert trace[..i + 1][..i] == trace[..i];
      if session.alive { session.OnMessage(contents, exitOn, trace[i]); }
    }
    assert trace[..|trace|] == trace;
    if session.channel != [] {
      r := Interpret(exitOn, session.channel[0]);
    } else {
      r := if session.alive then Waiting else Disconnected;
    }
  }

  // ------------------------------------------------------------ only the first terminal message counts

  predicate Terminal(contents: Json -> string, exitOn: XtStatus, msg: Message)
    requires Watchable(exitOn)
  {
    !React(contents, exitOn, msg).Continue?
  }

  function FirstTerminal(contents: Json -> string, exitOn: XtStatus, trace: seq<Message>): (i: nat)
    requires Watchable(exitOn)
    ensures i <= |trace|
    ensures i < |trace| ==> Terminal(contents, exitOn, trace[i])
    ensures forall j :: 0 <= j < i ==> !Terminal(contents, exitOn, trace[j])
  {
    if trace == [] || Terminal(contents, exitOn, trace[0]) then 0
    else
      var k := FirstTerminal(contents, exitOn, trace[1..]);
      assert forall j :: 0 <= j < |trace[1..]| ==> trace[1..][j] == trace[j + 1];
      k + 1
  }

  function OutcomeOf(contents: Json -> string, exitOn: XtStatus, msg: Message): (r: Outcome)
    requires Watchable(exitOn)
  {
    match React(contents, exitOn, msg)
    case Continue => Waiting
    case Finish(v) => Interpret(exitOn, v)
    case FinishWithError(v) => Interpret(exitOn, v)
    case Crash => Disconnected
  }

  lemma {:induction false} QuietRun(contents: Json -> string, exitOn: XtStatus, trace: seq<Message>)
    requires Watchable(exitOn) && forall j :: 0 <= j < |trace| ==> !Terminal(contents, exitOn, trace[j])
    ensures RunTrace(contents, exitOn, trace) == State(true, false, [])
  {
    hide React;
    if trace != [] { QuietRun(contents, exitOn, trace[..|trace| - 1]); }
  }

  /** Once a terminal message has been handled, later ones cannot change what the caller gets. */
  lemma {:induction false} SettledRun(contents: Json -> string, exitOn: XtStatus, trace: seq<Message>, i: nat)
    requires Watchable(exitOn) && i < |trace| && Terminal(contents, exitOn, trace[i])
    requires forall j :: 0 <= j < i ==> !Terminal(contents, exitOn, trace[j])
    ensures Taken(exitOn, RunTrace(contents, exitOn, trace)) == OutcomeOf(contents, exitOn, trace[i])
    ensures var st := RunTrace(contents, exitOn, trace); !st.alive || st.channel != []
    decreases |trace|
  {
    hide React, Interpret;
    var n := |trace| - 1;
    if i == n {
      QuietRun(contents, exitOn, trace[..n]);
    } else {
      assert trace[..n][i] == trace[i];
      SettledRun(contents, exitOn, trace[..n], i);
    }
  }

  /** The outcome is that of the first terminal message, whatever follows it; without one the caller
      waits. */
  lemma OutcomeByFirstTerminal(contents: Json -> string, exitOn: XtStatus, trace: seq<Message>)
    requires Watchable(exitOn)
    ensures var i := FirstTerminal(contents, exitOn, trace);
            SendOutcome(contents, exitOn, trace) == if i < |trace| then OutcomeOf(contents, exitOn, trace[i]) else Waiting
  {
    hide React, Interpret;
    var i := FirstTerminal(contents, exitOn, trace);
    if i < |trace| {
      SettledRun(contents, exitOn, trace, i);
    } else {
      QuietRun(contents, exitOn, trace);
    }
  }

  lemma WaitsIffNoTerminal(contents: Json -> string, exitOn: XtStatus, trace: seq<Message>)
    requires Watchable(exitOn)
    ensures SendOutcome(contents, exitOn, trace).Waiting?
       <==> forall j :: 0 <= j < |trace| ==> !Terminal(contents, exitOn, trace[j])
  {
    OutcomeByFirstTerminal(contents, exitOn, trace);
  }

  // ------------------------------------------------------------ when a hash is reported

  function StatusOf(msg: Message): (r: Json)
  {
    if msg.Parsed? then Get(Get(msg.value, "params"), "result") else Null
  }

  predicate HasKey(msg: Message, key: string)
  {
    StatusOf(msg).Obj? && key in StatusOf(msg).fields
  }

  /** The node refused, or the message is not one. */
  predicate IsError(msg: Message)
  {
    !msg.Parsed? || Get(msg.value, "error").Obj?
  }

  /** A status update carrying this block hash under `key`. */
  predicate Reports(msg: Message, key: string, h: seq<byte>)
  {
    !IsError(msg) && HasKey(msg, key) && HoldsHash(StatusOf(msg).fields[key], h)
  }

  /** The messages that end a watch: errors, `finalized` and `future` always, and the status that is
      waited for unless a later one is reported in the same update; any message, when nothing is watched. */
  predicate Ends(exitOn: XtStatus, msg: Message)
  {
    || exitOn.SubmitOnly? || IsError(msg) || HasKey(msg, "finalized") || StatusOf(msg) == Json.Str("future")
    || (exitOn.InBlock? && HasKey(msg, "inBlock"))
    || (exitOn.Broadcast? && HasKey(msg, "broadcast") && !HasKey(msg, "inBlock"))
    || (exitOn.Ready? && StatusOf(msg) == Json.Str("ready"))
  }

  lemma TerminalIffEnds(contents: Json -> string, exitOn: XtStatus, msg: Message)
    requires Watchable(exitOn)
    ensures Terminal(contents, exitOn, msg) <==> Ends(exitOn, msg)
  {
  }

  /** The message that ends the watch. */
  predicate EndsAt(exitOn: XtStatus, trace: seq<Message>, i: int)
  {
    0 <= i < |trace| && Ends(exitOn, trace[i]) && forall j :: 0 <= j < i ==> !Ends(exitOn, trace[j])
  }

  lemma FirstEnd(contents: Json -> string, exitOn: XtStatus, trace: seq<Message>)
    requires Watchable(exitOn)
    ensures var k := FirstTerminal(contents, exitOn, trace);
            forall i :: EndsAt(exitOn, trace, i) <==> i == k && k < |trace|
  {
    hide React, Ends;
    var k := FirstTerminal(contents, exitOn, trace);
    forall j | 0 <= j < |trace|
      ensures Terminal(contents, exitOn, trace[j]) <==> Ends(exitOn, trace[j])
    {
      TerminalIffEnds(contents, exitOn, trace[j]);
    }
    if k < |trace| {
      assert EndsAt(exitOn, trace, k);
    }
  }

  /** The outcome is read off the message that ends the watch; without one the caller waits. */
  lemma OutcomeByEnd(contents: Json -> string, exitOn: XtStatus, trace: seq<Message>)
    requires Watchable(exitOn)
    ensures forall i :: EndsAt(exitOn, trace, i) ==> SendOutcome(contents, exitOn, trace) == OutcomeOf(contents, exitOn, trace[i])
    ensures (exists i :: EndsAt(exitOn, trace, i)) || SendOutcome(contents, exitOn, trace) == Waiting
  {
    hide React, Ends, OutcomeOf, SendOutcome, EndsAt;
    FirstEnd(contents, exitOn, trace);
    OutcomeByFirstTerminal(contents, exitOn, trace);
    var k := FirstTerminal(contents, exitOn, trace);
    if k < |trace| { assert EndsAt(exitOn, trace, k); }
  }

  /** Waiting for finalization succeeds with `h` iff a `finalized` message with `h` arrives before
      anything else ends the watch: an in-block or future status, an error or a malformed message is
      never reported as a hash. */
  lemma FinalizedHashIff(contents: Json -> string, trace: seq<Message>, h: seq<byte>)
    ensures SendOutcome(contents, Finalized, trace) == Success(Some(h)) <==>
              exists i :: EndsAt(Finalized, trace, i) && Reports(trace[i], "finalized", h)
  {
    HashIff(contents, Finalized, trace, h);
  }

  predicate ReportsInclusion(msg: Message, h: seq<byte>)
  {
    Reports(msg, "finalized", h) || (!HasKey(msg, "finalized") && Reports(msg, "inBlock", h))
  }

  /** Waiting for inclusion also accepts `inBlock`, unless the update says `finalized` as well. */
  lemma InBlockHashIff(contents: Json -> string, trace: seq<Message>, h: seq<byte>)
    ensures SendOutcome(contents, InBlock, trace) == Success(Some(h)) <==>
              exists i :: EndsAt(InBlock, trace, i) && ReportsInclusion(trace[i], h)
  {
    HashIff(contents, InBlock, trace, h);
  }

  predicate ReportsFor(exitOn: XtStatus, msg: Message, h: seq<byte>)
  {
    if exitOn.Finalized? then Reports(msg, "finalized", h) else exitOn.InBlock? && ReportsInclusion(msg, h)
  }

  lemma HashIff(contents: Json -> string, exitOn: XtStatus, trace: seq<Message>, h: seq<byte>)
    requires exitOn.Finalized? || exitOn.InBlock?
    ensures SendOutcome(contents, exitOn, trace) == Success(Some(h)) <==>
              exists i :: EndsAt(exitOn, trace, i) && ReportsFor(exitOn, trace[i], h)
  {
    hide React, Ends, OutcomeOf, SendOutcome, Reports;
    OutcomeByEnd(contents, exitOn, trace);
    forall i | EndsAt(exitOn, trace, i)
      ensures OutcomeOf(contents, exitOn, trace[i]) == Success(Some(h)) <==> ReportsFor(exitOn, trace[i], h)
    {
      HashOfMessage(contents, exitOn, trace[i], h);
    }
  }

  lemma EmptyIsNoHash()
    ensures HashFromHex("").None?
  {
  }

  lemma HashOfMessage(contents: Json -> string, exitOn: XtStatus, msg: Message, h: seq<byte>)
    requires exitOn.Finalized? || exitOn.InBlock?
    ensures OutcomeOf(contents, exitOn, msg) == Success(Some(h))
       <==> ReportsFor(exitOn, msg, h)
  {
    hide HashFromHex, Render, HoldsHash;
    EmptyIsNoHash();
    if msg.Parsed? {
      var result := Get(Get(msg.value, "params"), "result");
      if result.Obj? && "finalized" in result.fields {
        RenderedHashIff(contents, result.fields["finalized"], h);
      } else if result.Obj? && "inBlock" in result.fields {
        RenderedHashIff(contents, result.fields["inBlock"], h);
      }
    }
  }

  /** The node's own way of writing a block hash is recognised, for every hash. */
  lemma NodeHashIsRead(h: seq<byte>)
    requires |h| == 32
    ensures HoldsHash(Json.Str("0x" + HexEncode(h)), h)
  {
    hide FromHex, HexEncode;
    var s := "0x" + HexEncode(h);
    FramedHex(0, true, h, 0);
    assert Quotes(0) + "0x" + HexEncode(h) + Quotes(0) == s;
    HexDigitsOnly(h);
  }

  // ------------------------------------------------------------ refusals, crashes and success without a hash

  /** The node refused in a form the handler can report, or answered with something that is not JSON. */
  predicate Refused(exitOn: XtStatus, msg: Message)
  {
    match msg
    case NotText => false
    case NotJson => true
    case Parsed(j) => GoodErrorObject(Get(j, "error")) && (exitOn.SubmitOnly? ==> !Get(j, "result").Str?)
  }

  /** The handler panics: on a frame that is not text, on an error object with ill-typed members and,
      when nothing is watched, on an answer with neither a result string nor an error object. */
  predicate Crashes(exitOn: XtStatus, msg: Message)
  {
    match msg
    case NotText => true
    case NotJson => false
    case Parsed(j) =>
      && !GoodErrorObject(Get(j, "error"))
      && (if exitOn.SubmitOnly? then !Get(j, "result").Str? else Get(j, "error").Obj?)
  }

  lemma ReactionByMessage(contents: Json -> string, exitOn: XtStatus, msg: Message)
    requires Watchable(exitOn)
    ensures React(contents, exitOn, msg).FinishWithError? <==> Refused(exitOn, msg)
    ensures React(contents, exitOn, msg).Crash? <==> Crashes(exitOn, msg)
    ensures Refused(exitOn, msg) || Crashes(exitOn, msg) ==> Ends(exitOn, msg)
  {
  }

  lemma OutcomeOfMessage(contents: Json -> string, exitOn: XtStatus, msg: Message)
    requires Watchable(exitOn) && Ends(exitOn, msg)
    ensures OutcomeOf(contents, exitOn, msg).Disconnected? <==> Crashes(exitOn, msg)
    ensures !OutcomeOf(contents, exitOn, msg).Waiting?
    ensures !exitOn.Finalized? && !exitOn.InBlock? && !Crashes(exitOn, msg) ==> OutcomeOf(contents, exitOn, msg) == Success(None)
    ensures exitOn.Finalized? || exitOn.InBlock? ==> OutcomeOf(contents, exitOn, msg) != Success(None)
    ensures (exitOn.Finalized? || exitOn.InBlock?) && (Refused(exitOn, msg) || (!IsError(msg) && StatusOf(msg) == Json.Str("future"))) ==>
              OutcomeOf(contents, exitOn, msg) == InvalidHex
  {
    hide HashFromHex, Render, Ends;
    ReactionByMessage(contents, exitOn, msg);
    TerminalIffEnds(contents, exitOn, msg);
    EmptyIsNoHash();
  }

  /** A caller waiting for less than inclusion is told of success iff the message that ends the watch does
      not crash the handler: refusals and `future` count as success. */
  lemma SuccessWithoutHashIff(contents: Json -> string, exitOn: XtStatus, trace: seq<Message>)
    requires exitOn.Broadcast? || exitOn.Ready? || exitOn.SubmitOnly?
    ensures SendOutcome(contents, exitOn, trace) == Success(None) <==>
              exists i :: EndsAt(exitOn, trace, i) && !Crashes(exitOn, trace[i])
  {
    hide React, OutcomeOf, SendOutcome, Crashes;
    OutcomeByEnd(contents, exitOn, trace);
    forall i | EndsAt(exitOn, trace, i)
      ensures OutcomeOf(contents, exitOn, trace[i]) == Success(None) <==> !Crashes(exitOn, trace[i])
    {
      OutcomeOfMessage(contents, exitOn, trace[i]);
    }
  }

  /** At every level the caller finds the channel closed iff the message that ends the watch crashes the
      handler. */
  lemma DisconnectedIff(contents: Json -> string, exitOn: XtStatus, trace: seq<Message>)
    requires Watchable(exitOn)
    ensures SendOutcome(contents, exitOn, trace).Disconnected? <==>
              exists i :: EndsAt(exitOn, trace, i) && Crashes(exitOn, trace[i])
  {
    hide React, OutcomeOf, SendOutcome, Crashes;
    OutcomeByEnd(contents, exitOn, trace);
    forall i | EndsAt(exitOn, trace, i)
      ensures OutcomeOf(contents, exitOn, trace[i]).Disconnected? <==> Crashes(exitOn, trace[i])
    {
      OutcomeOfMessage(contents, exitOn, trace[i]);
    }
  }

  /** A caller waiting for a hash gets an error iff the message that ends the watch neither reports a hash
      nor crashes the handler. */
  lemma InvalidHexIff(contents: Json -> string, exitOn: XtStatus, trace: seq<Message>)
    requires exitOn.Finalized? || exitOn.InBlock?
    ensures SendOutcome(contents, exitOn, trace).InvalidHex? <==>
              exists i :: EndsAt(exitOn, trace, i) && !Crashes(exitOn, trace[i]) && forall h :: !ReportsFor(exitOn, trace[i], h)
  {
    hide React, OutcomeOf, SendOutcome, Crashes, ReportsFor;
    OutcomeByEnd(contents, exitOn, trace);
    forall i | EndsAt(exitOn, trace, i)
      ensures OutcomeOf(contents, exitOn, trace[i]).InvalidHex? <==>
                !Crashes(exitOn, trace[i]) && forall h :: !ReportsFor(exitOn, trace[i], h)
    {
      InvalidHexMessage(contents, exitOn, trace[i]);
    }
  }

  lemma InvalidHexMessage(contents: Json -> string, exitOn: XtStatus, msg: Message)
    requires (exitOn.Finalized? || exitOn.InBlock?) && Ends(exitOn, msg)
    ensures OutcomeOf(contents, exitOn, msg).InvalidHex? <==> !Crashes(exitOn, msg) && forall h :: !ReportsFor(exitOn, msg, h)
  {
    hide React, Crashes, ReportsFor, HashFromHex;
    OutcomeOfMessage(contents, exitOn, msg);
    forall h: seq<byte>
      ensures OutcomeOf(contents, exitOn, msg) == Success(Some(h)) <==> ReportsFor(exitOn, msg, h)
    {
      HashOfMessage(contents, exitOn, msg, h);
    }
    var o := OutcomeOf(contents, exitOn, msg);
    if o.Success? {
      assert ReportsFor(exitOn, msg, o.hash.value);
    }
  }

  /** What a refusal, or the status `future` of a watched extrinsic, comes to: an error for a caller waiting
      for a hash, but a success for a caller waiting for less. */
  lemma RejectionOutcome(contents: Json -> string, exitOn: XtStatus, trace: seq<Message>, i: nat)
    requires Watchable(exitOn) && EndsAt(exitOn, trace, i)
    requires Refused(exitOn, trace[i])
          || (!exitOn.SubmitOnly? && !IsError(trace[i]) && StatusOf(trace[i]) == Json.Str("future"))
    ensures SendOutcome(contents, exitOn, trace)
         == if exitOn.Finalized? || exitOn.InBlock? then InvalidHex else Success(None)
  {
    OutcomeByEnd(contents, exitOn, trace);
    OutcomeOfMessage(contents, exitOn, trace[i]);
  }

  /** The node's answer to a transaction with a bad signature. */
  const BAD_SIGNATURE := Parsed(Obj(map["error" := Obj(map["code" := Number("1010", true),
                                                          "message" := Json.Str("Invalid Transaction"),
                                                          "data" := Json.Str("Bad Signature")])]))

  lemma BadSignatureReportedAsSuccess(contents: Json -> string, more: seq<Message>)
    ensures SendOutcome(contents, Broadcast, [BAD_SIGNATURE] + more) == Success(None)
    ensures SendOutcome(contents, Ready, [BAD_SIGNATURE] + more) == Success(None)
    ensures SendOutcome(contents, SubmitOnly, [BAD_SIGNATURE] + more) == Success(None)
    ensures SendOutcome(contents, InBlock, [BAD_SIGNATURE] + more) == InvalidHex
    ensures SendOutcome(contents, Finalized, [BAD_SIGNATURE] + more) == InvalidHex
  {
    hide SendOutcome;
    var trace := [BAD_SIGNATURE] + more;
    assert GoodErrorObject(Get(BAD_SIGNATURE.value, "error"));
    RejectionOutcome(contents, Broadcast, trace, 0);
    RejectionOutcome(contents, Ready, trace, 0);
    RejectionOutcome(contents, SubmitOnly, trace, 0);
    RejectionOutcome(contents, InBlock, trace, 0);
    RejectionOutcome(contents, Finalized, trace, 0);
  }

  // ------------------------------------------------------------ the messages of a node, spelt out

  /** An answer whose `error` is the object `fields`. */
  predicate AnswersError(msg: Message, fields: map<string, Json>)
  {
    msg.Parsed? && msg.value.Obj? && "error" in msg.value.fields && msg.value.fields["error"] == Obj(fields)
  }

  /** An error object may lack any of its three members; if it has them, message and data are strings and
      the code is an integer. It is then a refusal, and otherwise takes the handler down. */
  lemma ErrorObjectOutcome(contents: Json -> string, exitOn: XtStatus, msg: Message, fields: map<string, Json>, more: seq<Message>)
    requires Watchable(exitOn) && AnswersError(msg, fields)
    requires exitOn.SubmitOnly? && "result" in msg.value.fields ==> !msg.value.fields["result"].Str?
    ensures var wellTyped :=
              && ("message" in fields ==> fields["message"].Str?)
              && ("code" in fields ==> fields["code"].Number? && fields["code"].isI64)
              && ("data" in fields ==> fields["data"].Str?);
            SendOutcome(contents, exitOn, [msg] + more)
              == if !wellTyped then Disconnected
                 else if exitOn.Finalized? || exitOn.InBlock? then InvalidHex else Success(None)
  {
    hide SendOutcome, React;
    var trace := [msg] + more;
    assert EndsAt(exitOn, trace, 0);
    if Refused(exitOn, msg) {
      RejectionOutcome(contents, exitOn, trace, 0);
    } else {
      assert Crashes(exitOn, trace[0]);
      DisconnectedIff(contents, exitOn, trace);
    }
  }

  /** A status update whose `params.result` is `result`. */
  predicate Updates(msg: Message, result: Json)
  {
    && msg.Parsed? && msg.value.Obj? && ("error" in msg.value.fields ==> !msg.value.fields["error"].Obj?)
    && "params" in msg.value.fields && msg.value.fields["params"].Obj?
    && "result" in msg.value.fields["params"].fields && msg.value.fields["params"].fields["result"] == result
  }

  /** A message that does not end the watch changes nothing. */
  lemma QuietMessageSkipped(contents: Json -> string, exitOn: XtStatus, msg: Message, more: seq<Message>)
    requires Watchable(exitOn) && !Ends(exitOn, msg)
    ensures SendOutcome(contents, exitOn, [msg] + more) == SendOutcome(contents, exitOn, more)
  {
    hide SendOutcome, React, Ends, OutcomeOf;
    TerminalIffEnds(contents, exitOn, msg);
    var trace := [msg] + more;
    OutcomeByFirstTerminal(contents, exitOn, trace);
    OutcomeByFirstTerminal(contents, exitOn, more);
    assert trace[1..] == more;
  }

  /** A block hash as the node writes it. */
  function NodeHash(h: seq<byte>): (j: Json)
  {
    Json.Str("0x" + HexEncode(h))
  }

  /** What `finalized` with a block hash comes to at each level. */
  lemma FinalizedUpdate(contents: Json -> string, msg: Message, fields: map<string, Json>, h: seq<byte>, more: seq<Message>)
    requires |h| == 32 && Updates(msg, Obj(fields)) && "finalized" in fields && fields["finalized"] == NodeHash(h)
    ensures SendOutcome(contents, Finalized, [msg] + more) == Success(Some(h))
    ensures SendOutcome(contents, InBlock, [msg] + more) == Success(Some(h))
    ensures SendOutcome(contents, Broadcast, [msg] + more) == Success(None)
    ensures SendOutcome(contents, Ready, [msg] + more) == Success(None)
  {
    hide SendOutcome, React, HoldsHash, NodeHash;
    NodeHashRead(h);
    var trace := [msg] + more;
    assert Reports(trace[0], "finalized", h);
    assert EndsAt(Finalized, trace, 0) && EndsAt(InBlock, trace, 0) && EndsAt(Broadcast, trace, 0) && EndsAt(Ready, trace, 0);
    FinalizedHashIff(contents, trace, h);
    InBlockHashIff(contents, trace, h);
    SuccessWithoutHashIff(contents, Broadcast, trace);
    SuccessWithoutHashIff(contents, Ready, trace);
  }

  lemma NodeHashRead(h: seq<byte>)
    requires |h| == 32
    ensures HoldsHash(NodeHash(h), h)
  {
    NodeHashIsRead(h);
  }

  /** `inBlock` with a block hash answers whoever waits for inclusion; the others wait on. */
  lemma InBlockUpdate(contents: Json -> string, exitOn: XtStatus, msg: Message, fields: map<string, Json>, h: seq<byte>, more: seq<Message>)
    requires |h| == 32 && Updates(msg, Obj(fields)) && "finalized" !in fields && "inBlock" in fields && fields["inBlock"] == NodeHash(h)
    requires Watchable(exitOn) && !exitOn.SubmitOnly?
    ensures SendOutcome(contents, exitOn, [msg] + more)
         == if exitOn.InBlock? then Success(Some(h)) else SendOutcome(contents, exitOn, more)
  {
    hide SendOutcome, React, HoldsHash, NodeHash;
    if exitOn.InBlock? {
      NodeHashRead(h);
      var trace := [msg] + more;
      assert ReportsInclusion(trace[0], h) && EndsAt(InBlock, trace, 0);
      InBlockHashIff(contents, trace, h);
    } else {
      QuietMessageSkipped(contents, exitOn, msg, more);
    }
  }

  /** `ready` answers whoever waits for it, `future` everyone, with an error where a hash is expected; any
      other word is passed over. */
  lemma WordUpdate(contents: Json -> string, exitOn: XtStatus, msg: Message, word: string, more: seq<Message>)
    requires Updates(msg, Json.Str(word)) && Watchable(exitOn) && !exitOn.SubmitOnly?
    ensures SendOutcome(contents, exitOn, [msg] + more)
         == if word == "future" then (if exitOn.Finalized? || exitOn.InBlock? then InvalidHex else Success(None))
            else if word == "ready" && exitOn.Ready? then Success(None)
            else SendOutcome(contents, exitOn, more)
  {
    hide SendOutcome, React;
    var trace := [msg] + more;
    if word == "future" {
      assert EndsAt(exitOn, trace, 0);
      RejectionOutcome(contents, exitOn, trace, 0);
    } else if word == "ready" && exitOn.Ready? {
      assert EndsAt(exitOn, trace, 0);
      SuccessWithoutHashIff(contents, exitOn, trace);
    } else {
      QuietMessageSkipped(contents, exitOn, msg, more);
    }
  }

  /** Only three statuses cannot be waited for. */
  lemma UnsupportedIff(contents: Json -> string, exitOn: XtStatus, trace: seq<Message>)
    ensures SendOutcome(contents, exitOn, trace).Unsupported? <==> exitOn in {Future, XtStatus.Error, Unknown}
  {
    hide RunTrace;
  }

  /** The socket is closed iff a value was sent, that is, iff the caller has an answer. */
  lemma {:induction false} ClosedIffAnswered(contents: Json -> string, exitOn: XtStatus, trace: seq<Message>)
    requires Watchable(exitOn)
    ensures var st := RunTrace(contents, exitOn, trace); st.closed <==> st.channel != []
    ensures RunTrace(contents, exitOn, trace).closed <==> SendOutcome(contents, exitOn, trace) !in {Waiting, Disconnected}
  {
    hide React, HashFromHex;
    if trace != [] { ClosedIffAnswered(contents, exitOn, trace[..|trace| - 1]); }
  }

  // ------------------------------------------------------------ levels are ordered

  /** Whoever waits for less stops no later than whoever waits for finalization. */
  lemma WaitingForLessStopsNoLater(contents: Json -> string, exitOn: XtStatus, trace: seq<Message>)
    requires exitOn.InBlock? || exitOn.Broadcast? || exitOn.Ready?
    ensures FirstTerminal(contents, exitOn, trace) <= FirstTerminal(contents, Finalized, trace)
  {
    var i := FirstTerminal(contents, Finalized, trace);
    if i < |trace| {
      assert Terminal(contents, exitOn, trace[i]);
    }
  }
}
