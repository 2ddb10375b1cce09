/**
 * `chat_with_ai`: one turn of the assistant chat. The caller's history is
 * translated into the chat client's format (users stay users, the
 * assistant becomes the model, other roles are dropped), the message is
 * sent, and the reply comes back with the history extended by the two new
 * turns. When the client is missing or the call raises, a fixed message
 * comes back with the history as it was.
 */
module Chatbot {
  import opened Wrappers
  import opened Responses

  /** A turn of the caller's history: a dictionary whose "role" and "content" keys may be missing. */
  datatype Turn = Turn(role: Option<string>, content: Option<string>)

  /** A turn as the chat client takes it: `{"role": ..., "parts": [...]}`. */
  datatype ClientTurn = ClientTurn(role: string, parts: seq<string>)

  /**
   * The module-level chat client: `None` when no API key was set or
   * configuring it raised; otherwise a session started from a translated
   * history that answers one message (or raises).
   */
  datatype ChatClient = Unavailable | Available(send: (seq<ClientTurn>, string) -> CallOutcome)

  /** The dictionary `{"resposta": ..., "history": ...}`. */
  datatype ChatReply = ChatReply(resposta: string, history: seq<Turn>)

  const UnavailableReply: string :=
    "Desculpe, o servi\U{E7}o de chat n\U{E3}o est\U{E1} dispon\U{ED}vel no momento. Por favor, verifique a configura\U{E7}\U{E3}o da API."

  const ErrorReply: string :=
    "Desculpe, ocorreu um erro ao processar sua mensagem. Por favor, tente novamente."

  /** `history or []`: a missing history is an empty one. */
  function Prior(history: Option<seq<Turn>>): seq<Turn> {
    history.GetOr([])
  }

  /** The client turn a history turn becomes: none for a role other than "user" or "assistant". */
  function Translate(t: Turn): Option<ClientTurn> {
    if t.role == Some("user") then Some(ClientTurn("user", [t.content.GetOr("")]))
    else if t.role == Some("assistant") then Some(ClientTurn("model", [t.content.GetOr("")]))
    else None
  }

  /** The translated history: each turn's translation, in order. */
  function ClientHistory(h: seq<Turn>): seq<ClientTurn> {
    if h == [] then []
    else
      match Translate(h[|h| - 1])
      case Some(c) => ClientHistory(h[..|h| - 1]) + [c]
      case None => ClientHistory(h[..|h| - 1])
  }

  /** The history-translation loop. */
  method TranslateHistory(history: Option<seq<Turn>>) returns (chat: seq<ClientTurn>)
    ensures chat == ClientHistory(Prior(history))
  {
    chat := [];
    if history.Some? && history.value != [] {
      var h := history.value;
      for i := 0 to |h|
        invariant chat == ClientHistory(h[..i])
      {
        var msg := h[i];
        if msg.role == Some("user") {
          chat := chat + [ClientTurn("user", [msg.content.GetOr("")])];
        } else if msg.role == Some("assistant") {
          chat := chat + [ClientTurn("model", [msg.content.GetOr("")])];
        }
        assert h[..i + 1][..i] == h[..i];
      }
      assert h[..|h|] == h;
    }
  }

  /**
   * The history returned after a successful turn: the prior history, then
   * the user's message, then the assistant's answer.
   */
  function UpdatedHistory(prior: seq<Turn>, message: string, answer: string): (r: seq<Turn>)
    ensures |r| == |prior| + 2
    ensures r[..|prior|] == prior
    ensures r[|prior|].role == Some("user") && r[|prior|].content == Some(message)
    ensures r[|prior| + 1].role == Some("assistant") && r[|prior| + 1].content == Some(answer)
  {
    prior + [Turn(Some("user"), Some(message)), Turn(Some("assistant"), Some(answer))]
  }

  /**
   * `chat_with_ai(message, history)` with the client given explicitly. An
   * unavailable client and a call that raises both leave the history as it
   * was; a successful call returns the answer and the history extended by
   * exactly the two new turns.
   */
  method ChatWithAi(message: string, history: Option<seq<Turn>>, client: ChatClient) returns (reply: ChatReply)
    ensures client.Unavailable? ==> reply == ChatReply(UnavailableReply, Prior(history))
    ensures client.Available? && client.send(ClientHistory(Prior(history)), message) == Raised ==>
      reply == ChatReply(ErrorReply, Prior(history))
    ensures client.Available? && client.send(ClientHistory(Prior(history)), message).Returned? ==>
      var answer := client.send(ClientHistory(Prior(history)), message).text;
      reply == ChatReply(answer, UpdatedHistory(Prior(history), message, answer))
  {
    if client.Unavailable? {
      return ChatReply(UnavailableReply, Prior(history));
    }
    var chat := TranslateHistory(history);
    match client.send(chat, message)
    case Raised =>
      reply := ChatReply(ErrorReply, Prior(history));
    case Returned(answer) =>
      reply := ChatReply(answer, UpdatedHistory(Prior(history), message, answer));
  }

  // ---------------------------------------------------------------------
  // Properties of the translation

  /** Translation works turn by turn: the translation of two histories joined is the two translations joined. */
  lemma {:induction false} ClientHistoryAppend(a: seq<Turn>, b: seq<Turn>)
    ensures ClientHistory(a + b) == ClientHistory(a) + ClientHistory(b)
    decreases |b|
  {
    if b == [] {
      assert a + b == a;
    } else {
      var ab := a + b;
      assert ab[..|ab| - 1] == a + b[..|b| - 1];
      assert ab[|ab| - 1] == b[|b| - 1];
      ClientHistoryAppend(a, b[..|b| - 1]);
    }
  }

  /** A single turn: users stay users, the assistant becomes the model, anything else is dropped; missing content is "". */
  lemma ClientHistoryOfOneTurn(t: Turn)
    ensures t.role == Some("user") ==> ClientHistory([t]) == [ClientTurn("user", [t.content.GetOr("")])]
    ensures t.role == Some("assistant") ==> ClientHistory([t]) == [ClientTurn("model", [t.content.GetOr("")])]
    ensures t.role != Some("user") && t.role != Some("assistant") ==> ClientHistory([t]) == []
    ensures t.content == None && ClientHistory([t]) != [] ==> ClientHistory([t])[0].parts == [""]
  {
    assert [t][..0] == [];
  }

  /** The translation is never longer than the history, and every translated turn is a user or a model turn with one part. */
  lemma {:induction false} ClientHistoryShape(h: seq<Turn>)
    ensures |ClientHistory(h)| <= |h|
    ensures forall j :: 0 <= j < |ClientHistory(h)| ==>
      (ClientHistory(h)[j].role == "user" || ClientHistory(h)[j].role == "model") && |ClientHistory(h)[j].parts| == 1
    decreases |h|
  {
    if h != [] {
      ClientHistoryShape(h[..|h| - 1]);
    }
  }

  /** A successful turn extends the history by the two new turns, and the reply is the content of the last one. */
  lemma SuccessfulTurnAppendsTwo(prior: seq<Turn>, message: string, answer: string)
    ensures var r := UpdatedHistory(prior, message, answer);
      && |r| == |prior| + 2
      && r[..|prior|] == prior
      && r[|r| - 1].content == Some(answer)
      && ClientHistory(r) == ClientHistory(prior) + [ClientTurn("user", [message]), ClientTurn("model", [answer])]
  {
    var r := UpdatedHistory(prior, message, answer);
    var u, m := Turn(Some("user"), Some(message)), Turn(Some("assistant"), Some(answer));
    assert r == prior + ([u] + [m]);
    ClientHistoryAppend(prior, [u] + [m]);
    ClientHistoryAppend([u], [m]);
    ClientHistoryOfOneTurn(u);
    ClientHistoryOfOneTurn(m);
  }
}
