/**
 * The message endpoints: the member-only listing of a conversation's
 * messages (first page by id) and posting a message.
 */
module Messages {
  import opened Wrappers
  import opened Text
  import opened Sorting
  import opened Chat
  import opened Conversations

  /** The listing returns at most this many messages. */
  const PageSize := 200

  /** Longest accepted message body, in characters. */
  const MaxBodyLength := 2000

  /** `required|string|max:2000`: present, not blank after trimming, at most 2000 characters. */
  predicate BodyOk(body: Option<string>) {
    body.Some? && Present(body.value) && |body.value| <= MaxBodyLength
  }

  function MessageId(m: Message): int {
    m.id
  }

  function InConversation(conv: nat): Message -> bool {
    (m: Message) => m.conversationId == conv
  }

  /** The conversation's messages in id order. */
  function MessagesOf(msgs: seq<Message>, conv: nat): (r: seq<Message>)
    ensures forall m :: m in r <==> m in msgs && m.conversationId == conv
    ensures StrictlyIncreasing(msgs, MessageId) ==> StrictlyIncreasing(r, MessageId)
  {
    FilterKeepsOrder(msgs, InConversation(conv), MessageId);
    Filter(msgs, InConversation(conv))
  }

  /** In an id-ordered list, everything after the first `n` has a larger id than everything in them. */
  lemma FirstPageHasLowestIds(all: seq<Message>, n: nat, m: Message)
    requires StrictlyIncreasing(all, MessageId) && n <= |all|
    requires m in all && m !in all[..n]
    ensures forall l :: l in all[..n] ==> l.id < m.id
  {
    var p :| 0 <= p < |all| && all[p] == m;
    assert p >= n;
    forall l | l in all[..n] ensures l.id < m.id {
      var q :| 0 <= q < n && all[..n][q] == l;
      assert all[q] == l && MessageId(all[q]) < MessageId(all[p]);
    }
  }

  /** `orderBy('id')->limit(200)` over id-ordered rows: the oldest messages, at most 200. */
  function FirstPage(all: seq<Message>): (r: seq<Message>)
    ensures |r| == if |all| <= PageSize then |all| else PageSize
    ensures r == all[..|r|]
    ensures forall m :: m in r ==> m in all
    ensures StrictlyIncreasing(all, MessageId) ==>
      && StrictlyIncreasing(r, MessageId)
      && forall m :: m in all && m !in r ==> forall l :: l in r ==> l.id < m.id
  {
    var n := if |all| <= PageSize then |all| else PageSize;
    PrefixKeepsLowestIds(all, n);
    all[..n]
  }

  lemma PrefixKeepsLowestIds(all: seq<Message>, n: nat)
    requires n <= |all|
    ensures forall m :: m in all[..n] ==> m in all
    ensures StrictlyIncreasing(all, MessageId) ==>
      && StrictlyIncreasing(all[..n], MessageId)
      && forall m :: m in all && m !in all[..n] ==> forall l :: l in all[..n] ==> l.id < m.id
  {
    assert forall i :: 0 <= i < n ==> all[..n][i] == all[i];
    if StrictlyIncreasing(all, MessageId) {
      forall m | m in all && m !in all[..n] ensures forall l :: l in all[..n] ==> l.id < m.id {
        FirstPageHasLowestIds(all, n, m);
      }
    }
  }

  /**
   * 404 for an unknown conversation, 403 unless the caller has a row in it
   * (hidden or not), otherwise the conversation's first 200 messages by id.
   */
  function MessageIndex(convs: seq<Conversation>, parts: seq<Participant>, msgs: seq<Message>, convId: nat, me: nat): (r: ChatReply)
    ensures r == NoSuchConversation <==> !Exists(convs, convId)
    ensures r == NotParticipant <==> Exists(convs, convId) && !IsMember(parts, convId, me)
    ensures r.MessageList? <==> Exists(convs, convId) && IsMember(parts, convId, me)
    ensures r.MessageList? ==>
      && |r.messages| <= PageSize
      && forall m :: m in r.messages ==> m in msgs && m.conversationId == convId
    ensures r.MessageList? && StrictlyIncreasing(msgs, MessageId) ==>
      && StrictlyIncreasing(r.messages, MessageId)
      && forall m :: m in msgs && m.conversationId == convId && m !in r.messages ==>
           |r.messages| == PageSize && forall l :: l in r.messages ==> l.id < m.id
  {
    if !Exists(convs, convId) then NoSuchConversation
    else if !IsMember(parts, convId, me) then NotParticipant
    else MessageList(FirstPage(MessagesOf(msgs, convId)))
  }

  /** The listing reads participant rows only for membership: clearing or hiding never changes it. */
  lemma MessageIndexIgnoresVisibility(convs: seq<Conversation>, parts: seq<Participant>, parts2: seq<Participant>, msgs: seq<Message>, convId: nat, me: nat)
    requires SameMembership(parts, parts2)
    ensures MessageIndex(convs, parts2, msgs, convId, me) == MessageIndex(convs, parts, msgs, convId, me)
  {
    SameMembershipKeepsLookups(parts, parts2, convId, me);
  }

  /**
   * The route for reading messages serves `MessageIndex`, so a message
   * sent before the caller cleared the chat is still served, while the
   * clear-aware view leaves it out.
   */
  lemma {:induction false} ClearedMessageStillServed(convs: seq<Conversation>, parts: seq<Participant>, msgs: seq<Message>, convId: nat, me: nat, m: Message)
    requires TablesWellFormed(convs, parts, msgs)
    requires Exists(convs, convId) && IsMember(parts, convId, me)
    requires parts[FindParticipant(parts, convId, me).value].hiddenAt.None?
    requires parts[FindParticipant(parts, convId, me).value].clearedAt.Some?
    requires m in msgs && m.conversationId == convId
    requires m.createdAt <= parts[FindParticipant(parts, convId, me).value].clearedAt.value
    requires |MessagesOf(msgs, convId)| <= PageSize
    ensures m in MessageIndex(convs, parts, msgs, convId, me).messages
    ensures m !in ConversationMessages(convs, parts, msgs, convId, me).messages
  {
    ShortConversationServed(convs, parts, msgs, convId, me, m);
  }

  /** Every message of a conversation holding at most 200 messages is served to every member. */
  lemma ShortConversationServed(convs: seq<Conversation>, parts: seq<Participant>, msgs: seq<Message>, convId: nat, me: nat, m: Message)
    requires Exists(convs, convId) && IsMember(parts, convId, me)
    requires m in msgs && m.conversationId == convId
    requires |MessagesOf(msgs, convId)| <= PageSize
    ensures m in MessageIndex(convs, parts, msgs, convId, me).messages
  {
    var all := MessagesOf(msgs, convId);
    assert FirstPage(all) == all by {
      assert all[..|all|] == all;
    }
  }

  /**
   * Posts a message: 404 for an unknown conversation, 422 for an invalid
   * body (checked before membership), 403 for a non-member; otherwise the
   * message is appended with the next id, sent by the caller at `now`.
   * No participant row changes, so posting does not unhide the
   * conversation for anyone.
   */
  method Store(db: ChatDb, convId: nat, me: nat, body: Option<string>, now: Time) returns (r: ChatReply)
    requires db.Valid()
    modifies db
    ensures db.Valid()
    ensures db.conversations == old(db.conversations) && db.participants == old(db.participants)
    ensures !Exists(db.conversations, convId) ==> r == NoSuchConversation
    ensures Exists(db.conversations, convId) && !BodyOk(body) ==> r == Invalid
    ensures Exists(db.conversations, convId) && BodyOk(body) && !IsMember(db.participants, convId, me) ==> r == NotParticipant
    ensures !r.Posted? ==> db.messages == old(db.messages)
    ensures Exists(db.conversations, convId) && BodyOk(body) && IsMember(db.participants, convId, me) ==>
      && r == Posted(Message(|old(db.messages)| + 1, convId, me, body.value, now))
      && db.messages == old(db.messages) + [r.message]
  {
    if !Exists(db.conversations, convId) {
      return NoSuchConversation;
    }
    if !BodyOk(body) {
      return Invalid;
    }
    if !IsMember(db.participants, convId, me) {
      return NotParticipant;
    }
    var m := Message(|db.messages| + 1, convId, me, body.value, now);
    db.messages := db.messages + [m];
    r := Posted(m);
  }

  /** Once posted, a message is the newest of its conversation and one of its messages. */
  lemma {:induction false} PostedMessageIsLatest(msgs: seq<Message>, m: Message)
    requires forall i :: 0 <= i < |msgs| ==> msgs[i].id == i + 1
    requires m.id == |msgs| + 1
    ensures LastMessage(msgs + [m], m.conversationId) == Some(m)
    ensures m in MessagesOf(msgs + [m], m.conversationId)
  {
  }

  /** A posted message joins the end of its conversation's id-ordered messages. */
  lemma MessagesOfAppend(msgs: seq<Message>, m: Message)
    ensures MessagesOf(msgs + [m], m.conversationId) == MessagesOf(msgs, m.conversationId) + [m]
  {
    FilterAppend(msgs, m, InConversation(m.conversationId));
  }

  /** While the conversation holds fewer than 200 messages, a posted message is served to every member. */
  lemma PostedMessageServed(convs: seq<Conversation>, parts: seq<Participant>, msgs: seq<Message>, m: Message, me: nat)
    requires Exists(convs, m.conversationId) && IsMember(parts, m.conversationId, me)
    requires |MessagesOf(msgs, m.conversationId)| < PageSize
    ensures m in MessageIndex(convs, parts, msgs + [m], m.conversationId, me).messages
  {
    MessagesOfAppend(msgs, m);
    ShortConversationServed(convs, parts, msgs + [m], m.conversationId, me, m);
  }

  /**
   * With 200 messages already in the conversation, a posted message is not
   * served: the listing keeps the 200 lowest ids.
   */
  lemma PostedMessageMissedOnFullPage(convs: seq<Conversation>, parts: seq<Participant>, msgs: seq<Message>, m: Message, me: nat)
    requires forall i :: 0 <= i < |msgs| ==> msgs[i].id == i + 1
    requires m.id == |msgs| + 1
    requires Exists(convs, m.conversationId) && IsMember(parts, m.conversationId, me)
    requires |MessagesOf(msgs, m.conversationId)| >= PageSize
    ensures m !in MessageIndex(convs, parts, msgs + [m], m.conversationId, me).messages
  {
    var before := MessagesOf(msgs, m.conversationId);
    MessagesOfAppend(msgs, m);
    FullPageUnchanged(before, m);
    NewIdNotStored(msgs, m);
  }

  /** Appending to a list of 200 or more leaves its first page as it was. */
  lemma FullPageUnchanged(before: seq<Message>, m: Message)
    requires |before| >= PageSize
    ensures FirstPage(before + [m]) == FirstPage(before)
  {
    assert (before + [m])[..PageSize] == before[..PageSize];
  }

  /** A message carrying the next id is not yet in the table. */
  lemma NewIdNotStored(msgs: seq<Message>, m: Message)
    requires forall i :: 0 <= i < |msgs| ==> msgs[i].id == i + 1
    requires m.id == |msgs| + 1
    ensures m !in msgs
  {
    forall i | 0 <= i < |msgs| ensures msgs[i] != m { assert msgs[i].id < m.id; }
  }

  /** In an id-ordered list, everything before the last `|all| - n` has a smaller id than everything in them. */
  lemma LastPageHasHighestIds(all: seq<Message>, n: nat, m: Message)
    requires StrictlyIncreasing(all, MessageId) && n <= |all|
    requires m in all && m !in all[n..]
    ensures forall l :: l in all[n..] ==> m.id < l.id
  {
    var p :| 0 <= p < |all| && all[p] == m;
    assert p < n;
    forall l | l in all[n..] ensures m.id < l.id {
      var q :| 0 <= q < |all| - n && all[n..][q] == l;
      assert all[n + q] == l && MessageId(all[p]) < MessageId(all[n + q]);
    }
  }

  /** The newest messages of a conversation, at most 200, still in id order. */
  function LatestPage(all: seq<Message>): (r: seq<Message>)
    ensures |r| == if |all| <= PageSize then |all| else PageSize
    ensures r == all[|all| - |r|..]
    ensures forall m :: m in r ==> m in all
    ensures StrictlyIncreasing(all, MessageId) ==>
      && StrictlyIncreasing(r, MessageId)
      && forall m :: m in all && m !in r ==> forall l :: l in r ==> m.id < l.id
  {
    var n := if |all| <= PageSize then 0 else |all| - PageSize;
    SuffixKeepsHighestIds(all, n);
    all[n..]
  }

  lemma SuffixKeepsHighestIds(all: seq<Message>, n: nat)
    requires n <= |all|
    ensures forall m :: m in all[n..] ==> m in all
    ensures StrictlyIncreasing(all, MessageId) ==>
      && StrictlyIncreasing(all[n..], MessageId)
      && forall m :: m in all && m !in all[n..] ==> forall l :: l in all[n..] ==> m.id < l.id
  {
    assert forall i :: 0 <= i < |all| - n ==> all[n..][i] == all[n + i];
    if StrictlyIncreasing(all, MessageId) {
      forall m | m in all && m !in all[n..] ensures forall l :: l in all[n..] ==> m.id < l.id {
        LastPageHasHighestIds(all, n, m);
      }
    }
  }

  /**
   * The listing with its cap applied to the newest messages: 404 and 403 as
   * in `MessageIndex`, otherwise the conversation's last 200 messages by id.
   */
  function LatestMessageIndex(convs: seq<Conversation>, parts: seq<Participant>, msgs: seq<Message>, convId: nat, me: nat): (r: ChatReply)
    ensures r == NoSuchConversation <==> !Exists(convs, convId)
    ensures r == NotParticipant <==> Exists(convs, convId) && !IsMember(parts, convId, me)
    ensures r.MessageList? <==> Exists(convs, convId) && IsMember(parts, convId, me)
    ensures r.MessageList? ==>
      && |r.messages| <= PageSize
      && forall m :: m in r.messages ==> m in msgs && m.conversationId == convId
    ensures r.MessageList? && StrictlyIncreasing(msgs, MessageId) ==>
      && StrictlyIncreasing(r.messages, MessageId)
      && forall m :: m in msgs && m.conversationId == convId && m !in r.messages ==>
           |r.messages| == PageSize && forall l :: l in r.messages ==> m.id < l.id
  {
    if !Exists(convs, convId) then NoSuchConversation
    else if !IsMember(parts, convId, me) then NotParticipant
    else MessageList(LatestPage(MessagesOf(msgs, convId)))
  }

  /** With the cap on the newest messages, a posted message is always served to every member. */
  lemma PostedMessageAlwaysServed(convs: seq<Conversation>, parts: seq<Participant>, msgs: seq<Message>, m: Message, me: nat)
    requires Exists(convs, m.conversationId) && IsMember(parts, m.conversationId, me)
    ensures m in LatestMessageIndex(convs, parts, msgs + [m], m.conversationId, me).messages
  {
    MessagesOfAppend(msgs, m);
    var all := MessagesOf(msgs + [m], m.conversationId);
    var page := LatestPage(all);
    assert page[|page| - 1] == all[|all| - 1] == m;
  }
}
