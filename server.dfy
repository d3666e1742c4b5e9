/**
 * The tail of the chat handler, after the prompt is assembled: normalise the model's
 * reply, map a failed model call to a gateway error, append the assistant turn, trim
 * the history that is saved, and build the response; and the global exception handler.
 */
module ChatTail {
  import opened Wrappers
  import opened Text

  datatype Role = System | User | Assistant

  /** A conversation message, `{"role": ..., "content": ...}`. */
  datatype Message = Message(role: Role, content: string)

  /** `HTTPException(status_code, detail)` */
  datatype HttpException = HttpException(status: int, detail: string)

  /** The JSON body of a successful chat call; sources is absent unless debugging. */
  datatype ChatResponse = ChatResponse(sessionId: string, reply: string, sources: Option<seq<string>>)

  /** What the tail hands on: the list given to `db_set` and the response. */
  datatype Turn = Turn(saved: seq<Message>, response: ChatResponse)

  /** The reply used when the model answers with nothing but whitespace. */
  const FallbackReply: string := "Understood. What outcome are you aiming for?"

  /** The status of an upstream model failure. */
  const BadGateway: int := 502

  /**
   * The model call and its clean-up: `(llm_chat(...) or "").strip()`, with an empty
   * reply replaced by the fallback. llm is what the call returned (None included) or
   * the message of the exception it raised, which becomes a 502.
   */
  function NormalizeReply(llm: Result<Option<string>, string>): Result<string, HttpException> {
    match llm
    case Err(msg) => Err(HttpException(BadGateway, "LLM error: " + msg))
    case Ok(out) =>
      var reply := Strip(out.GetOr(""));
      Ok(if reply == [] then FallbackReply else reply)
  }

  /**
   * A model answer becomes a non-empty reply without surrounding whitespace: the
   * stripped answer, or the fallback when that is empty. A raised call becomes
   * `HTTPException(502, "LLM error: " + msg)`.
   */
  lemma NormalizeReplyFacts(llm: Result<Option<string>, string>)
    ensures NormalizeReply(llm).Ok? <==> llm.Ok?
    ensures llm.Err? ==> NormalizeReply(llm) == Err(HttpException(BadGateway, "LLM error: " + llm.error))
    ensures llm.Ok? ==>
      var reply := NormalizeReply(llm).value;
      && reply != [] && IsStripped(reply)
      && (reply == FallbackReply <==> Strip(llm.value.GetOr("")) in {[], FallbackReply})
      && (Strip(llm.value.GetOr("")) != [] ==> reply == Strip(llm.value.GetOr("")))
  {
    if llm.Ok? {
      StripIsStripped(llm.value.GetOr(""));
      assert FallbackReply[0] == 'U' && FallbackReply[|FallbackReply| - 1] == '?';
    }
  }

  /** `[history[0]] + history[-max_msgs:]` */
  function Trim(history: seq<Message>, maxMsgs: int): seq<Message>
    requires history != []
  {
    [history[0]] + SliceFrom(history, -maxMsgs)
  }

  /**
   * With a positive cap, the saved list is the first message followed by the last
   * min(n, cap) messages; its first element is the first message and its last the
   * newest one.
   */
  lemma TrimWindow(history: seq<Message>, maxMsgs: int)
    requires history != [] && maxMsgs >= 1
    ensures var t := Trim(history, maxMsgs);
      && |t| == 1 + Min(|history|, maxMsgs)
      && t == [history[0]] + history[|history| - Min(|history|, maxMsgs)..]
      && t[0] == history[0]
      && t[|t| - 1] == history[|history| - 1]
  {
  }

  /**
   * Python's slice semantics when the history is no longer than the cap: the whole
   * history is kept, so the first (system) message is saved twice.
   */
  lemma TrimShortDuplicatesFirst(history: seq<Message>, maxMsgs: int)
    requires history != [] && 1 <= |history| <= maxMsgs
    ensures Trim(history, maxMsgs) == [history[0]] + history
    ensures Trim(history, maxMsgs)[0] == Trim(history, maxMsgs)[1]
  {
  }

  /** A cap of 0 keeps everything: `history[-0:]` is the whole list. */
  lemma TrimZeroKeepsAll(history: seq<Message>)
    requires history != []
    ensures Trim(history, 0) == [history[0]] + history
  {
  }

  /** A negative cap drops that many messages from the front instead. */
  lemma TrimNegative(history: seq<Message>, maxMsgs: int)
    requires history != [] && maxMsgs < 0
    ensures Trim(history, maxMsgs) == [history[0]] + history[Min(-maxMsgs, |history|)..]
  {
  }

  /** Once the history is at least the cap, the saved list has exactly cap + 1 messages. */
  lemma TrimSteadyLength(history: seq<Message>, maxMsgs: int)
    requires history != [] && 1 <= maxMsgs <= |history|
    ensures |Trim(history, maxMsgs)| == maxMsgs + 1
  {
  }

  /**
   * The first message survives any number of turns: trimming again after more
   * messages are appended still starts with the original first message.
   */
  lemma {:induction false} TrimKeepsFirstAcrossTurns(history: seq<Message>, turns: seq<seq<Message>>, maxMsgs: int)
    requires history != []
    ensures RunTurns(history, turns, maxMsgs) != [] && RunTurns(history, turns, maxMsgs)[0] == history[0]
    decreases |turns|
  {
    if turns != [] {
      TrimKeepsFirstAcrossTurns(history, turns[..|turns| - 1], maxMsgs);
    }
  }

  /**
   * With a positive cap the saved history never grows past the cap plus the first
   * message, however many turns have been taken.
   */
  lemma TrimBoundAcrossTurns(history: seq<Message>, turns: seq<seq<Message>>, maxMsgs: int)
    requires history != [] && turns != [] && maxMsgs >= 1
    ensures |RunTurns(history, turns, maxMsgs)| <= maxMsgs + 1
  {
    var prev := RunTurns(history, turns[..|turns| - 1], maxMsgs);
    TrimWindow(prev + turns[|turns| - 1], maxMsgs);
  }

  /** The number of messages the turns append, all together. */
  function TotalLength(turns: seq<seq<Message>>): nat {
    if turns == [] then 0 else TotalLength(turns[..|turns| - 1]) + |turns[|turns| - 1]|
  }

  /**
   * Below the cap the copies of the first message pile up: every turn saves the whole
   * history after one more copy of its first message, so after k turns the history
   * starts with k + 1 copies of it and nothing has been dropped.
   */
  lemma {:induction false} TrimCopiesPileUp(history: seq<Message>, turns: seq<seq<Message>>, maxMsgs: int)
    requires history != []
    requires |history| + TotalLength(turns) + |turns| <= maxMsgs
    ensures var h := RunTurns(history, turns, maxMsgs);
      && |h| == |history| + TotalLength(turns) + |turns|
      && forall i | 0 <= i <= |turns| :: h[i] == history[0]
    decreases |turns|
  {
    if turns != [] {
      var init := turns[..|turns| - 1];
      var last := turns[|turns| - 1];
      TrimCopiesPileUp(history, init, maxMsgs);
      var prev := RunTurns(history, init, maxMsgs);
      var x := prev + last;
      assert SliceFrom(x, -maxMsgs) == x;
      var h := RunTurns(history, turns, maxMsgs);
      assert h == [x[0]] + x;
      forall i | 0 <= i <= |turns| ensures h[i] == history[0] {
        if i > 0 {
          assert h[i] == x[i - 1] == prev[i - 1];
        }
      }
    }
  }

  /** The history after each of several turns appended its messages and trimmed. */
  function RunTurns(history: seq<Message>, turns: seq<seq<Message>>, maxMsgs: int): (h: seq<Message>)
    requires history != []
    ensures h != []
  {
    if turns == [] then history
    else Trim(RunTurns(history, turns[..|turns| - 1], maxMsgs) + turns[|turns| - 1], maxMsgs)
  }

  /**
   * The tail of the chat handler. history is the working copy sent to the model (the
   * system prompt first); llm is what the model call gave; the returned Turn holds the
   * list passed to `db_set` and the response. A failed model call raises the 502 before
   * anything is appended or saved.
   */
  method CompleteTurn(history: seq<Message>, sessionId: string, llm: Result<Option<string>, string>,
                      maxMsgs: int, debugSources: bool, ragSources: seq<string>)
    returns (out: Result<Turn, HttpException>)
    ensures out.Err? <==> llm.Err?
    ensures llm.Err? ==> out == Err(HttpException(BadGateway, "LLM error: " + llm.error))
    ensures out.Ok? ==>
      var reply := NormalizeReply(llm).value;
      var turn := out.value;
      && turn.saved == Trim(history + [Message(Assistant, reply)], maxMsgs)
      && turn.response.sessionId == sessionId && turn.response.reply == reply
      && (turn.response.sources.Some? <==> debugSources && ragSources != [])
      && (turn.response.sources.Some? ==> turn.response.sources.value == ragSources)
  {
    var r := NormalizeReply(llm);
    if r.Err? {
      return Err(r.error);
    }
    var reply := r.value;
    var h := history;
    h := h + [Message(Assistant, reply)];
    var trimmed := [h[0]] + SliceFrom(h, -maxMsgs);
    var resp := ChatResponse(sessionId, reply, None);
    if debugSources && |ragSources| > 0 {
      resp := resp.(sources := Some(ragSources));
    }
    return Ok(Turn(trimmed, resp));
  }

  /**
   * What a successful turn saves, for a positive cap: the first message of the
   * history, then the newest messages, ending with the assistant's reply.
   */
  lemma CompletedTurnSaved(history: seq<Message>, reply: string, maxMsgs: int)
    requires history != [] && maxMsgs >= 1
    ensures var saved := Trim(history + [Message(Assistant, reply)], maxMsgs);
      && saved[0] == history[0]
      && saved[|saved| - 1] == Message(Assistant, reply)
      && |saved| == 1 + Min(|history| + 1, maxMsgs)
  {
    TrimWindow(history + [Message(Assistant, reply)], maxMsgs);
  }

  // ---------------------------------------------------------------------------
  // all_exception_handler
  // ---------------------------------------------------------------------------

  /** An exception that reaches the handler. */
  datatype Raised = Http(exc: HttpException) | Other(message: string)

  /** `JSONResponse(status_code, content)` with a flat string-valued body. */
  datatype JsonResponse = JsonResponse(status: int, content: map<string, string>)

  /** `all_exception_handler`: an HTTPException keeps its status and detail; anything else is a 500. */
  function HandleException(e: Raised): JsonResponse {
    match e
    case Http(exc) => JsonResponse(exc.status, map["detail" := exc.detail])
    case Other(msg) => JsonResponse(500, map["detail" := "Internal Server Error", "error" := msg])
  }

  /**
   * Every handled exception answers with a detail; only unexpected exceptions carry
   * their message under "error", and only they become a 500 unless an HTTPException
   * chose that status itself.
   */
  lemma HandleExceptionFacts(e: Raised)
    ensures var r := HandleException(e);
      && "detail" in r.content
      && ("error" in r.content <==> e.Other?)
      && (e.Http? ==> r.status == e.exc.status && r.content["detail"] == e.exc.detail)
      && (e.Other? ==> r.status == 500 && r.content["detail"] == "Internal Server Error"
                       && r.content["error"] == e.message)
  {
  }

  /** A failed model call reaches the client as a 502 whose detail names the error. */
  lemma ModelFailureIs502(msg: string)
    ensures var r := NormalizeReply(Err(msg));
      r.Err? && HandleException(Http(r.error)) == JsonResponse(BadGateway, map["detail" := "LLM error: " + msg])
  {
  }
}
