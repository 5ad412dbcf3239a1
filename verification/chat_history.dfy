/** The per-user conversation state of the chat service
    (backend/services/chatService.js): the history map, the update-and-trim
    step after a reply, clearing, and the mapping from a failure's message to
    the error the service throws. The Gemini call is an input: the reply text
    or the failure message. */
module ChatHistory {
  import opened Text
  import ChatText

  datatype Role = UserRole | ModelRole
  datatype Entry = Entry(role: Role, content: string)

  type UserId = string
  type Histories = map<UserId, seq<Entry>>

  /** At most this many entries are kept per user. */
  const HistoryCap: nat := 10

  /** `getConversationHistory`: a user seen for the first time gets an empty
      history, which is stored. */
  function GetConversationHistory(h: Histories, user: UserId): (r: (Histories, seq<Entry>))
    ensures user in r.0 && r.1 == r.0[user]
    ensures r.0.Keys == h.Keys + {user}
    ensures forall u :: u in h ==> r.0[u] == h[u]
    ensures user !in h ==> r.1 == []
  {
    if user in h then (h, h[user]) else (h[user := []], [])
  }

  /** `history.splice(0, history.length - 10)` when the history is longer
      than the cap. */
  function KeepLast(xs: seq<Entry>): (r: seq<Entry>)
    ensures |r| == if |xs| > HistoryCap then HistoryCap else |xs|
    ensures xs == xs[..|xs| - |r|] + r
  {
    if |xs| > HistoryCap then xs[|xs| - HistoryCap..] else xs
  }

  function ModelEntries(ms: seq<string>): (es: seq<Entry>)
    ensures |es| == |ms|
    ensures forall i :: 0 <= i < |ms| ==> es[i] == Entry(ModelRole, ms[i])
  {
    seq(|ms|, i requires 0 <= i < |ms| => Entry(ModelRole, ms[i]))
  }

  /** The update of `processMessage`: the user's message and every reply
      message are appended, and only the newest ten entries are kept. */
  function AppendExchange(history: seq<Entry>, message: string, ms: seq<string>): (r: seq<Entry>)
    requires |ms| >= 1
    ensures var all := history + [Entry(UserRole, message)] + ModelEntries(ms);
      && |r| == (if |all| > HistoryCap then HistoryCap else |all|)
      && all == all[..|all| - |r|] + r
      && r[|r| - 1] == Entry(ModelRole, ms[|ms| - 1])
      && (|all| <= HistoryCap ==> r[..|history|] == history)
  {
    var all := history + [Entry(UserRole, message)] + ModelEntries(ms);
    assert all[|all| - 1] == Entry(ModelRole, ms[|ms| - 1]);
    KeepLast(all)
  }

  /** The histories after an exchange: the user's history (empty when new)
      extended and cut to the cap, everybody else's untouched. */
  function RecordExchange(h: Histories, user: UserId, message: string, ms: seq<string>): (r: Histories)
    requires |ms| >= 1
    ensures r.Keys == h.Keys + {user}
    ensures r[user] == AppendExchange(if user in h then h[user] else [], message, ms)
    ensures forall u :: u in h && u != user ==> r[u] == h[u]
  {
    var history := if user in h then h[user] else [];
    h[user := AppendExchange(history, message, ms)]
  }

  /** The update is `getConversationHistory` followed by the push and the
      trim on the history it returns. */
  lemma RecordExchangeAfterGet(h: Histories, user: UserId, message: string, ms: seq<string>)
    requires |ms| >= 1
    ensures var g := GetConversationHistory(h, user);
      RecordExchange(h, user, message, ms) == g.0[user := AppendExchange(g.1, message, ms)]
  {
    if user !in h {
      UpdateTwice(h, user, [], AppendExchange([], message, ms));
    }
  }

  lemma UpdateTwice(h: Histories, user: UserId, a: seq<Entry>, b: seq<Entry>)
    ensures h[user := a][user := b] == h[user := b]
  {
    var l := h[user := a][user := b];
    var r := h[user := b];
    assert l.Keys == r.Keys;
  }

  /** What the Gemini call produced. */
  datatype Reply = ReplyText(text: string) | ReplyFailure(message: string)

  datatype Outcome = Messages(messages: seq<string>) | Thrown(message: string)

  const MissingKeyMessage: string := "Gemini API key is not configured"

  /** `processMessage` without the prompt and the timestamps: the reply is
      formatted and split, the user's message and every reply message are
      appended to the history, and the history is cut to its last ten
      entries. */
  function ProcessMessage(h: Histories, user: UserId, message: string, apiKeySet: bool, reply: Reply)
    : (r: (Histories, Outcome))
  {
    if !apiKeySet then (h, Thrown(ClassifyError(MissingKeyMessage)))
    else
      match reply
      case ReplyFailure(m) => (GetConversationHistory(h, user).0, Thrown(ClassifyError(m)))
      case ReplyText(t) =>
        var ms := ChatText.SplitIntoMessages(ChatText.FormatResponse(t));
        (RecordExchange(h, user, message, ms), Messages(ms))
  }

  /** `clearHistory`. */
  function ClearHistory(h: Histories, user: UserId): (r: Histories)
    ensures user !in r
    ensures r.Keys == h.Keys - {user}
    ensures forall u :: u in r ==> r[u] == h[u]
  {
    h - {user}
  }

  /** Every stored history is within the cap. */
  ghost predicate Capped(h: Histories)
  {
    forall u :: u in h ==> |h[u]| <= HistoryCap
  }

  /** After a reply, the messages are the formatted, split reply text and
      the user's history is the old one (empty for a new user) extended by
      the exchange and cut to the cap. */
  lemma ProcessMessageHistory(h: Histories, user: UserId, message: string, t: string)
    ensures var r := ProcessMessage(h, user, message, true, ReplyText(t));
      && r.1 == Messages(ChatText.SplitIntoMessages(ChatText.FormatResponse(t)))
      && user in r.0
      && r.0[user] == AppendExchange(if user in h then h[user] else [], message, r.1.messages)
  {
  }

  /** A reply adds the user to the map if needed and changes nobody else's
      history. */
  lemma ProcessMessageOthers(h: Histories, user: UserId, message: string, t: string)
    ensures var r := ProcessMessage(h, user, message, true, ReplyText(t));
      && r.0.Keys == h.Keys + {user}
      && (forall u :: u in h && u != user ==> r.0[u] == h[u])
  {
    var ms := ChatText.SplitIntoMessages(ChatText.FormatResponse(t));
    assert ProcessMessage(h, user, message, true, ReplyText(t)).0 == RecordExchange(h, user, message, ms);
  }

  /** A failed call creates the user's empty history if it was missing and
      changes nothing else; without an API key nothing at all changes. */
  lemma FailureKeepsHistory(h: Histories, user: UserId, message: string, apiKeySet: bool, m: string)
    ensures var (h', out) := ProcessMessage(h, user, message, apiKeySet, ReplyFailure(m));
      && out.Thrown?
      && (forall u :: u in h ==> u in h' && h'[u] == h[u])
      && h'.Keys <= h.Keys + {user}
      && (!apiKeySet ==> h' == h)
  {
  }

  /** Every step keeps all histories within the cap. */
  lemma StepsKeepCap(h: Histories, user: UserId, message: string, apiKeySet: bool, reply: Reply)
    requires Capped(h)
    ensures Capped(ProcessMessage(h, user, message, apiKeySet, reply).0)
    ensures Capped(ClearHistory(h, user))
  {
  }

  // ---------------------------------------------------------------------
  // Error mapping

  /** The keyword checks of `processMessage`, in the order they are tried. */
  const ErrorTable: seq<(string, string)> := [
    ("API key", "Invalid API key. Please check your Gemini API key."),
    ("quota", "API quota exceeded. Please try again later."),
    ("safety", "Message blocked due to safety concerns. Please rephrase your message."),
    ("404", "Model not found. Please check the model configuration."),
    ("permission", "API key does not have permission to access the model.")
  ]

  const FallbackPrefix: string := "Failed to process message: "

  function ClassifyFrom(message: string, i: nat): string
    requires i <= |ErrorTable|
    decreases |ErrorTable| - i
  {
    if i == |ErrorTable| then FallbackPrefix + message
    else if Contains(message, ErrorTable[i].0) then ErrorTable[i].1
    else ClassifyFrom(message, i + 1)
  }

  /** The message of the error `processMessage` throws for a failure with
      message `message`. */
  function ClassifyError(message: string): string
  {
    ClassifyFrom(message, 0)
  }

  /** No keyword of the table from index `i` up to (not including) `j`
      occurs in the message. */
  predicate NoKeywordBetween(message: string, i: nat, j: nat)
    requires j <= |ErrorTable|
  {
    forall l :: i <= l < j ==> !Contains(message, ErrorTable[l].0)
  }

  /** Keyword `j` is the first one from index `i` found in the message. */
  predicate FirstKeywordFrom(message: string, i: nat, j: nat)
  {
    i <= j < |ErrorTable| && Contains(message, ErrorTable[j].0) && NoKeywordBetween(message, i, j)
  }

  lemma {:induction false} ClassifyFromSpec(message: string, i: nat)
    requires i <= |ErrorTable|
    ensures || (exists j: nat :: FirstKeywordFrom(message, i, j) && ClassifyFrom(message, i) == ErrorTable[j].1)
            || (NoKeywordBetween(message, i, |ErrorTable|) && ClassifyFrom(message, i) == FallbackPrefix + message)
    decreases |ErrorTable| - i
  {
    if i < |ErrorTable| {
      if Contains(message, ErrorTable[i].0) {
        assert FirstKeywordFrom(message, i, i);
      } else {
        ClassifyFromSpec(message, i + 1);
        if j: nat :| FirstKeywordFrom(message, i + 1, j) && ClassifyFrom(message, i + 1) == ErrorTable[j].1 {
          assert FirstKeywordFrom(message, i, j);
        }
      }
    }
  }

  /** The first keyword of the table found in the message selects the
      error; when none is found the message is wrapped. */
  lemma ClassifyErrorSpec(message: string)
    ensures || (exists j: nat :: FirstKeywordFrom(message, 0, j) && ClassifyError(message) == ErrorTable[j].1)
            || (NoKeywordBetween(message, 0, |ErrorTable|) && ClassifyError(message) == FallbackPrefix + message)
  {
    ClassifyFromSpec(message, 0);
  }

  /** Without a keyword the thrown message is the fallback prefix followed
      by the original message, which can be read back from it. */
  lemma FallbackKeepsMessage(message: string)
    requires NoKeywordBetween(message, 0, |ErrorTable|)
    ensures ClassifyError(message) == FallbackPrefix + message
    ensures ClassifyError(message)[|FallbackPrefix|..] == message
  {
    ClassifyErrorSpec(message);
  }

  /** The thrown message only depends on which keyword comes first. */
  lemma SameFirstKeywordSameError(m1: string, m2: string, j: nat)
    requires FirstKeywordFrom(m1, 0, j) && FirstKeywordFrom(m2, 0, j)
    ensures ClassifyError(m1) == ClassifyError(m2) == ErrorTable[j].1
  {
    ClassifyErrorSpec(m1);
    ClassifyErrorSpec(m2);
  }

  /** A missing API key is reported as an invalid one: the check's own
      message contains "API key". */
  lemma MissingKeyReportedAsInvalid()
    ensures ClassifyError(MissingKeyMessage) == ErrorTable[0].1
  {
    assert MissingKeyMessage == "Gemini " + "API key" + " is not configured";
    assert MissingKeyMessage[7..14] == "API key";
    assert OccursAt(MissingKeyMessage, ErrorTable[0].0, 7);
  }
}
