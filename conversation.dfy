/** Conversations: the messages exchanged with the model, the
    conversations kept in the session, their generated names and the lookup
    of the selected one. */
module Conversation {
  import opened Wrappers
  import opened Text

  /** Who wrote a message: the user, the model, or the page itself when it
      adds instructions to a request. */
  datatype Role = User | Assistant | System

  datatype Message = Message(role: Role, content: string)

  /** A conversation as kept in the session: its name, which doubles as its
      key, and its messages in the order they were written. */
  datatype Chat = Chat(id: string, messages: seq<Message>)

  const ChatIdPrefix: string := "Conversazione "

  /** The name given to the `n`-th conversation created: the fixed prefix
      followed by `n` in decimal. */
  function ChatId(n: nat): (id: string)
    ensures |id| > |ChatIdPrefix| && id[..|ChatIdPrefix|] == ChatIdPrefix
    ensures ParseNat(id[|ChatIdPrefix|..]) == n
  {
    var digits := NatToString(n);
    ParseNatToString(n);
    assert (ChatIdPrefix + digits)[|ChatIdPrefix|..] == digits;
    ChatIdPrefix + digits
  }

  /** Different counters give different names. */
  lemma ChatIdInjective(m: nat, n: nat)
    ensures ChatId(m) == ChatId(n) <==> m == n
  {
  }

  /** `chats[i]` carries the name generated from `i + 1`: what creating
      conversations only by appending, each named after the new length,
      leaves behind. */
  predicate SequentialIds(chats: seq<Chat>)
  {
    forall i :: 0 <= i < |chats| ==> chats[i].id == ChatId(i + 1)
  }

  /** Under sequential naming no two conversations share a name, and the
      conversation named after `n` sits at position `n - 1`. */
  lemma SequentialIdsDistinct(chats: seq<Chat>, n: nat)
    requires SequentialIds(chats)
    ensures forall i, j :: 0 <= i < j < |chats| ==> chats[i].id != chats[j].id
    ensures forall i :: 0 <= i < |chats| ==> (chats[i].id == ChatId(n) <==> i + 1 == n)
  {
    forall i, j | 0 <= i < j < |chats|
      ensures chats[i].id != chats[j].id
    {
      ChatIdInjective(i + 1, j + 1);
    }
    forall i | 0 <= i < |chats|
      ensures chats[i].id == ChatId(n) <==> i + 1 == n
    {
      ChatIdInjective(i + 1, n);
    }
  }

  /** The messages of a conversation never carry the system role: the
      conversation only ever receives the user's questions and the model's
      answers. */
  predicate NoSystem(history: seq<Message>)
  {
    forall k :: 0 <= k < |history| ==> history[k].role != System
  }

  /** What every reachable list of conversations satisfies: sequential
      names and no system messages. */
  predicate WellFormed(chats: seq<Chat>)
  {
    && SequentialIds(chats)
    && forall i :: 0 <= i < |chats| ==> NoSystem(chats[i].messages)
  }

  /** The name a new conversation receives is not yet taken, and appending
      the new, empty conversation keeps the list well formed. */
  lemma NewChatFresh(chats: seq<Chat>)
    requires WellFormed(chats)
    ensures forall i :: 0 <= i < |chats| ==> chats[i].id != ChatId(|chats| + 1)
    ensures WellFormed(chats + [Chat(ChatId(|chats| + 1), [])])
  {
    SequentialIdsDistinct(chats, |chats| + 1);
    var after := chats + [Chat(ChatId(|chats| + 1), [])];
    assert forall i :: 0 <= i < |chats| ==> after[i] == chats[i];
  }

  /** `next(c for c in chats if c["id"] == id)`: the position of the first
      conversation with that name, or nothing when there is none (where the
      page raises). */
  function FindChat(chats: seq<Chat>, id: string): (found: Option<nat>)
    ensures found.Some? ==> found.value < |chats| && chats[found.value].id == id
    ensures found.Some? ==> forall j :: 0 <= j < found.value ==> chats[j].id != id
    ensures found.None? <==> forall j :: 0 <= j < |chats| ==> chats[j].id != id
  {
    if chats == [] then None
    else if chats[0].id == id then Some(0)
    else
      var rest := FindChat(chats[1..], id);
      assert forall j :: 1 <= j < |chats| ==> chats[1..][j - 1] == chats[j];
      match rest
      case None => None
      case Some(k) => Some(k + 1)
  }

  /** One question and, when the model delivered one, its answer, appended
      at the end of a conversation. */
  function WithExchange(chat: Chat, question: string, answer: Option<string>): (r: Chat)
    ensures r.id == chat.id
    ensures |r.messages| == |chat.messages| + (if answer.Some? then 2 else 1)
    ensures r.messages[..|chat.messages|] == chat.messages
    ensures r.messages[|chat.messages|] == Message(User, question)
    ensures answer.Some? ==> r.messages[|chat.messages| + 1] == Message(Assistant, answer.value)
  {
    var asked := chat.messages + [Message(User, question)];
    match answer
    case None => Chat(chat.id, asked)
    case Some(reply) => Chat(chat.id, asked + [Message(Assistant, reply)])
  }

  /** Appending an exchange never introduces a system message and keeps
      the name, so the list stays well formed. */
  lemma ExchangeKeepsInvariant(chats: seq<Chat>, i: nat, question: string, answer: Option<string>)
    requires WellFormed(chats) && i < |chats|
    ensures WellFormed(chats[i := WithExchange(chats[i], question, answer)])
  {
    var r := WithExchange(chats[i], question, answer);
    var n := |chats[i].messages|;
    forall k | 0 <= k < |r.messages|
      ensures r.messages[k].role != System
    {
      if k < n {
        assert r.messages[k] == r.messages[..n][k];
      }
    }
  }
}
