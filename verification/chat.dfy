/**
 * The chat client's core: the conversation history, the window of it that is
 * sent with each request, the extraction of the assistant's reply from the
 * decoded response, and the read-loop that grows the history one input at a
 * time. The completion endpoint is an oracle: a function from the message
 * list sent to the response that comes back.
 */
module Chat {
  import opened Wrappers
  import opened Text

  /** The number of user/assistant exchanges kept in each request. */
  const HISTORY_LIMIT: nat := 6

  datatype Role = System | User | Assistant

  datatype Message = Message(role: Role, content: string)

  const SYSTEM_PROMPT: string := "You are ChatGPT, a helpful assistant."

  /** The message every conversation starts with. */
  const SystemMessage: Message := Message(System, SYSTEM_PROMPT)

  // ---------------------------------------------------------------------
  // The history window sent with each request
  // ---------------------------------------------------------------------

  /** Python's `s[-k:]` for `k >= 0`: the last `k` elements, where `-0 == 0` makes `s[-0:]` all of `s`. */
  function TailSlice<T>(s: seq<T>, k: nat): (r: seq<T>)
    ensures |r| == if k == 0 || |s| <= k then |s| else k
    ensures r == s[|s| - |r|..]
  {
    if k == 0 || |s| <= k then s else s[|s| - k..]
  }

  /**
   * The list `call_openai` sends: the history itself while it has at most
   * `2 * limit + 1` messages, otherwise its first message followed by its
   * last `2 * limit` messages. The caller's history is not changed.
   */
  function Window(history: seq<Message>, limit: nat): (sent: seq<Message>)
    ensures |history| <= 2 * limit + 1 ==> sent == history
    ensures limit >= 1 && |history| > 2 * limit + 1 ==>
      && |sent| == 2 * limit + 1
      && sent[0] == history[0]
      && sent[1..] == history[|history| - 2 * limit..]
  {
    if |history| > limit * 2 + 1 then [history[0]] + TailSlice(history, limit * 2) else history
  }

  /** The history is a well-formed conversation: one system message, first, then user and assistant turns. */
  predicate WellFormed(history: seq<Message>) {
    && |history| >= 1
    && history[0] == SystemMessage
    && (forall i :: 1 <= i < |history| ==> TurnAt(history, i))
  }

  /** The message at `i` is not a system message, and if it is an assistant message it comes right after a user message. */
  predicate TurnAt(history: seq<Message>, i: int)
    requires 1 <= i < |history|
  {
    && history[i].role != System
    && (history[i].role == Assistant ==> history[i - 1].role == User)
  }

  /** The window of a well-formed history still starts with the system message and holds no other. */
  lemma WindowKeepsSystemMessage(history: seq<Message>, limit: nat)
    requires WellFormed(history) && limit >= 1
    ensures |Window(history, limit)| >= 1 && Window(history, limit)[0] == SystemMessage
    ensures forall i :: 1 <= i < |Window(history, limit)| ==> Window(history, limit)[i].role != System
    ensures forall m :: m in Window(history, limit) ==> m in history
  {
    var sent := Window(history, limit);
    forall i | 1 <= i < |sent| ensures sent[i].role != System {
      if |history| > 2 * limit + 1 {
        assert sent[i] == sent[1..][i - 1] == history[|history| - 2 * limit - 1 + i];
        assert TurnAt(history, |history| - 2 * limit - 1 + i);
      } else {
        assert TurnAt(history, i);
      }
    }
    forall m | m in sent ensures m in history {
      var i :| 0 <= i < |sent| && sent[i] == m;
      if i > 0 && |history| > 2 * limit + 1 {
        assert m == sent[1..][i - 1] == history[|history| - 2 * limit - 1 + i];
      }
    }
  }

  /** Windowing a window changes nothing, since it is already short enough. */
  lemma WindowIdempotent(history: seq<Message>, limit: nat)
    requires limit >= 1
    ensures Window(Window(history, limit), limit) == Window(history, limit)
  {
  }

  /**
   * With a limit of 0 the window is not the system message alone: since
   * `history[-0:]` is the whole list, the first message is sent twice.
   */
  lemma WindowLimitZero(history: seq<Message>)
    requires |history| > 1
    ensures Window(history, 0) == [history[0]] + history
  {
  }

  // ---------------------------------------------------------------------
  // The completion call
  // ---------------------------------------------------------------------

  /** A decoded JSON value. Numbers are kept as integers; the client never reads one. */
  datatype Json =
    | JNull
    | JBool(b: bool)
    | JNumber(n: int)
    | JString(s: string)
    | JArray(items: seq<Json>)
    | JObject(fields: map<string, Json>)

  /**
   * The body of an HTTP response: it decodes as JSON, it reads as text that
   * is not JSON, or reading it raises (the connection drops while it is
   * read, or it is not valid UTF-8).
   */
  datatype Body = Decoded(json: Json) | NotJson | Unreadable

  /**
   * What the POST to the completion endpoint gives: it raised an `Exception`,
   * it was interrupted by `KeyboardInterrupt` (which no handler of
   * `call_openai` catches), or a response arrived.
   */
  datatype Response = TransportFailure | Interrupted | HttpReply(status: int, body: Body)

  /** What `call_openai` does: returns the reply text or None, or lets an exception escape. */
  datatype CallOutcome = Returned(reply: Option<string>) | Raised

  /** `data["choices"][0]["message"]["content"]` exists and is the string `s`. */
  ghost predicate ContentAt(data: Json, s: string) {
    && data.JObject? && "choices" in data.fields
    && data.fields["choices"].JArray? && |data.fields["choices"].items| > 0
    && data.fields["choices"].items[0].JObject? && "message" in data.fields["choices"].items[0].fields
    && data.fields["choices"].items[0].fields["message"].JObject?
    && "content" in data.fields["choices"].items[0].fields["message"].fields
    && data.fields["choices"].items[0].fields["message"].fields["content"] == JString(s)
  }

  /**
   * The reply text taken from a decoded response: the content at
   * `choices[0].message.content`, stripped. Any missing key, short list,
   * value of the wrong kind or non-string content raises inside the `try`,
   * which gives None.
   */
  function ReplyContent(data: Json): (r: Option<string>)
    ensures r.None? <==> forall s :: !ContentAt(data, s)
    ensures forall s :: ContentAt(data, s) ==> r == Some(Strip(s))
  {
    if !(data.JObject? && "choices" in data.fields) then None
    else
      var choices := data.fields["choices"];
      if !(choices.JArray? && |choices.items| > 0) then None
      else
        var choice := choices.items[0];
        if !(choice.JObject? && "message" in choice.fields) then None
        else
          var message := choice.fields["message"];
          if !(message.JObject? && "content" in message.fields) then None
          else
            var content := message.fields["content"];
            if !content.JString? then None
            else
              assert ContentAt(data, content.s);
              Some(Strip(content.s))
  }

  /** A reply whose content is padded with spaces comes back stripped. */
  lemma ReplyIsStripped()
    ensures ReplyContent(JObject(map["choices" := JArray([JObject(map["message" :=
              JObject(map["content" := JString("  hi there  ")])])])])) == Some("hi there")
  {
    StripUnique("  hi there  ", "hi there", 2);
  }

  /**
   * `call_openai`: the window of `history` is sent and the response
   * classified. A failed POST gives None. An interrupted POST raises out of
   * the call. A status other than 200 gives None once its body has been read
   * for the error notice, and that read raises for an unreadable body. A 200
   * response raises when its body is unreadable or not JSON; otherwise the
   * reply is extracted.
   */
  function CallOpenAI(history: seq<Message>, server: seq<Message> -> Response): (out: CallOutcome)
    ensures var resp := server(Window(history, HISTORY_LIMIT));
      && (resp.TransportFailure? ==> out == Returned(None))
      && (resp.HttpReply? && resp.status != 200 && !resp.body.Unreadable? ==> out == Returned(None))
      && (out == Raised <==>
            || resp.Interrupted?
            || (resp.HttpReply? && resp.body.Unreadable?)
            || resp == HttpReply(200, NotJson))
      && (resp.HttpReply? && resp.status == 200 && resp.body.Decoded? ==> out == Returned(ReplyContent(resp.body.json)))
  {
    match server(Window(history, HISTORY_LIMIT))
    case TransportFailure => Returned(None)
    case Interrupted => Raised
    case HttpReply(status, body) =>
      if body.Unreadable? then Raised
      else if status != 200 then Returned(None)
      else if body.NotJson? then Raised
      else Returned(ReplyContent(body.json))
  }

  // ---------------------------------------------------------------------
  // The read-loop of `main`
  // ---------------------------------------------------------------------

  /** Where the loop is after an input: waiting for the next one, exited, or ended by an escaping exception. */
  datatype LoopState = AwaitingInput | Exiting | Crashed

  /** The stripped input asks to leave. */
  predicate IsQuit(text: string)
    ensures IsQuit(text) ==> |text| == 4 && text[0] in "qQeE"
  {
    Lower(text) == "quit" || Lower(text) == "exit"
  }

  /** Case does not matter, but the whole stripped input must be the word. */
  lemma QuitSpellings()
    ensures IsQuit("quit") && IsQuit("Quit") && IsQuit("EXIT") && !IsQuit("quit now")
  {
  }

  /** The outcome of one input: the next loop state, the new history, and the message list sent, if any. */
  datatype Turn = Turn(state: LoopState, history: seq<Message>, sent: Option<seq<Message>>)

  /**
   * One pass of the loop for one input line, where None stands for the end of
   * input or an interrupt.
   */
  function NextTurn(history: seq<Message>, input: Option<string>, server: seq<Message> -> Response): (t: Turn)
    ensures t.sent.None? <==> input.None? || Strip(input.value) == [] || IsQuit(Strip(input.value))
    ensures t.sent.None? ==> t.history == history && t.state != Crashed
    ensures t.state == AwaitingInput || t.state == Crashed || t.sent.None?
  {
    if input.None? then Turn(Exiting, history, None)
    else
      var text := Strip(input.value);
      if text == [] then Turn(AwaitingInput, history, None)
      else if IsQuit(text) then Turn(Exiting, history, None)
      else Ask(history, text, server)
  }

  /**
   * The history gains the user message, its window is sent, and the reply,
   * when there is one, is appended as an assistant message.
   */
  function Ask(history: seq<Message>, text: string, server: seq<Message> -> Response): (t: Turn)
    ensures t.sent == Some(Window(history + [Message(User, text)], HISTORY_LIMIT))
    ensures |history| < |t.history| <= |history| + 2
    ensures t.history[..|history| + 1] == history + [Message(User, text)]
    ensures t.state == Crashed ==> |t.history| == |history| + 1
    ensures |t.history| == |history| + 2 ==> t.history[|history| + 1].role == Assistant
    ensures t.state != Exiting
  {
    var asked := history + [Message(User, text)];
    match CallOpenAI(asked, server)
    case Raised => Turn(Crashed, asked, Some(Window(asked, HISTORY_LIMIT)))
    case Returned(None) => Turn(AwaitingInput, asked, Some(Window(asked, HISTORY_LIMIT)))
    case Returned(Some(reply)) =>
      Turn(AwaitingInput, asked + [Message(Assistant, reply)], Some(Window(asked, HISTORY_LIMIT)))
  }

  /** End of input or an interrupt at the prompt ends the loop with no call and the history unchanged. */
  lemma EndOfInputExits(history: seq<Message>, server: seq<Message> -> Response)
    ensures NextTurn(history, None, server) == Turn(Exiting, history, None)
  {
  }

  /** Blank input makes no call, leaves the history alone and keeps the loop going. */
  lemma BlankInputIgnored(history: seq<Message>, line: string, server: seq<Message> -> Response)
    requires forall k :: 0 <= k < |line| ==> IsSpace(line[k])
    ensures NextTurn(history, Some(line), server) == Turn(AwaitingInput, history, None)
  {
    StripEmptyIff(line);
  }

  /** `quit` or `exit`, in any case and with surrounding whitespace, ends the loop with the history unchanged. */
  lemma QuitEndsLoop(history: seq<Message>, line: string, server: seq<Message> -> Response)
    requires IsQuit(Strip(line))
    ensures NextTurn(history, Some(line), server) == Turn(Exiting, history, None)
  {
  }

  /**
   * Any other input appends exactly one user message with the stripped text,
   * sends the window of the history that ends with it, and then appends one
   * assistant message exactly when a reply came back.
   */
  lemma OtherInputAsks(history: seq<Message>, line: string, server: seq<Message> -> Response)
    requires Strip(line) != [] && !IsQuit(Strip(line))
    ensures var t := NextTurn(history, Some(line), server);
      var asked := history + [Message(User, Strip(line))];
      var out := CallOpenAI(asked, server);
      && t.sent == Some(Window(asked, HISTORY_LIMIT))
      && t.history[..|asked|] == asked
      && (out == Returned(None) ==> t.history == asked && t.state == AwaitingInput)
      && (out.Returned? && out.reply.Some? ==>
            t.history == asked + [Message(Assistant, out.reply.value)] && t.state == AwaitingInput)
      && (out.Raised? ==> t.history == asked && t.state == Crashed)
  {
  }

  /** A turn keeps the history well-formed and only ever appends to it. */
  lemma NextTurnPreserves(history: seq<Message>, input: Option<string>, server: seq<Message> -> Response)
    requires WellFormed(history)
    ensures var t := NextTurn(history, input, server);
      && WellFormed(t.history)
      && |history| <= |t.history| <= |history| + 2
      && t.history[..|history|] == history
  {
    if input.Some? && Strip(input.value) != [] && !IsQuit(Strip(input.value)) {
      var t := Ask(history, Strip(input.value), server);
      AskPreserves(history, Strip(input.value), server);
      assert t.history[..|history|] == t.history[..|history| + 1][..|history|];
    }
  }

  /** Asking keeps the history well-formed: the user message follows it, and the assistant message, if any, follows that. */
  lemma AskPreserves(history: seq<Message>, text: string, server: seq<Message> -> Response)
    requires WellFormed(history)
    ensures WellFormed(Ask(history, text, server).history)
  {
    var asked := history + [Message(User, text)];
    var h := Ask(history, text, server).history;
    forall i | 1 <= i < |h| ensures TurnAt(h, i) {
      if i <= |history| {
        assert h[i] == h[..|history| + 1][i] == asked[i];
        if i < |history| {
          assert h[i - 1] == h[..|history| + 1][i - 1] == asked[i - 1];
          assert TurnAt(history, i);
        }
      } else {
        assert h[i - 1] == h[..|history| + 1][i - 1] == asked[i - 1];
      }
    }
    assert h[0] == h[..|history| + 1][0] == asked[0];
  }

  /** The whole run of the loop over an input stream: the state it ends in and the final history. */
  function Session(history: seq<Message>, inputs: seq<Option<string>>, server: seq<Message> -> Response): (r: (LoopState, seq<Message>))
    ensures r.0 != AwaitingInput
    ensures |history| <= |r.1|
    decreases |inputs|
  {
    var t := NextTurn(history, if inputs == [] then None else inputs[0], server);
    if inputs == [] || t.state != AwaitingInput then (t.state, t.history)
    else Session(t.history, inputs[1..], server)
  }

  /** The loop always ends (the stream runs out at last) and never shrinks or breaks the history. */
  lemma {:induction false} SessionPreserves(history: seq<Message>, inputs: seq<Option<string>>, server: seq<Message> -> Response)
    requires WellFormed(history)
    ensures var (state, final) := Session(history, inputs, server);
      && state != AwaitingInput
      && WellFormed(final)
      && |history| <= |final|
      && final[..|history|] == history
    decreases |inputs|
  {
    var t := NextTurn(history, if inputs == [] then None else inputs[0], server);
    NextTurnPreserves(history, if inputs == [] then None else inputs[0], server);
    if inputs != [] && t.state == AwaitingInput {
      SessionPreserves(t.history, inputs[1..], server);
      var final := Session(t.history, inputs[1..], server).1;
      assert final[..|history|] == final[..|t.history|][..|history|];
    }
  }

  /** The session of `main`: the history list that the loop appends to in place. */
  class ChatSession {
    var history: seq<Message>

    ghost predicate Valid()
      reads this
    {
      WellFormed(history)
    }

    /** `history = [system_msg]`. */
    constructor ()
      ensures Valid() && history == [SystemMessage]
    {
      history := [SystemMessage];
    }

    /** One pass of the `while True` loop for one input (None: end of input or interrupt). */
    method Step(input: Option<string>, server: seq<Message> -> Response) returns (state: LoopState, sent: Option<seq<Message>>)
      requires Valid()
      modifies this
      ensures Valid()
      ensures Turn(state, history, sent) == NextTurn(old(history), input, server)
      ensures |old(history)| <= |history| && history[..|old(history)|] == old(history)
    {
      NextTurnPreserves(history, input, server);
      if input.None? {
        return Exiting, None;
      }
      var text := Strip(input.value);
      if text == [] {
        return AwaitingInput, None;
      }
      if Lower(text) == "quit" || Lower(text) == "exit" {
        return Exiting, None;
      }
      history := history + [Message(User, text)];
      sent := Some(Window(history, HISTORY_LIMIT));
      var reply := CallOpenAI(history, server);
      match reply
      case Raised =>
        state := Crashed;
      case Returned(None) =>
        state := AwaitingInput;
      case Returned(Some(r)) =>
        history := history + [Message(Assistant, r)];
        state := AwaitingInput;
    }

    /**
     * `main`'s loop over an input stream: inputs are read in order until one
     * ends the loop; reading past the last one is the end of input.
     */
    method Run(inputs: seq<Option<string>>, server: seq<Message> -> Response) returns (state: LoopState)
      requires Valid()
      modifies this
      ensures Valid()
      ensures (state, history) == Session(old(history), inputs, server)
      ensures state != AwaitingInput
      ensures |old(history)| <= |history| && history[..|old(history)|] == old(history)
    {
      SessionPreserves(history, inputs, server);
      state := AwaitingInput;
      var n := 0;
      while state == AwaitingInput
        invariant 0 <= n <= |inputs| + 1
        invariant Valid()
        invariant state == AwaitingInput ==> n <= |inputs| && Session(old(history), inputs, server) == Session(history, inputs[n..], server)
        invariant state != AwaitingInput ==> Session(old(history), inputs, server) == (state, history)
        decreases |inputs| + 1 - n
      {
        var input := if n < |inputs| then inputs[n] else None;
        assert inputs[n..] == [] <==> n == |inputs|;
        assert n < |inputs| ==> inputs[n..][0] == inputs[n] && inputs[n..][1..] == inputs[n + 1..];
        var sent;
        state, sent := Step(input, server);
        n := n + 1;
      }
    }
  }
}
