/**
 * The conversation endpoints: opening (or reusing) a direct conversation,
 * the caller's conversation list, the caller's view of one conversation's
 * messages, and the per-member "clear", "hide" and "unhide" switches.
 */
module Conversations {
  import opened Wrappers
  import opened Sorting
  import opened Chat

  // ---------------------------------------------------------------------
  // createOrGetDm
  // ---------------------------------------------------------------------

  /** A conversation the direct-conversation lookup accepts: of type dm, with both users among its members. */
  predicate IsDmOf(parts: seq<Participant>, me: nat, other: nat, c: Conversation) {
    c.kind == Dm && IsMember(parts, c.id, me) && IsMember(parts, c.id, other)
  }

  /** Position of the first such conversation in table order. */
  function FindDm(convs: seq<Conversation>, parts: seq<Participant>, me: nat, other: nat): (r: Option<nat>)
    ensures r.Some? ==> r.value < |convs| && IsDmOf(parts, me, other, convs[r.value])
    ensures r.None? <==> forall i :: 0 <= i < |convs| ==> !IsDmOf(parts, me, other, convs[i])
  {
    FirstWhere(convs, (c: Conversation) => IsDmOf(parts, me, other, c))
  }

  /** The two member rows a new direct conversation starts with. */
  function DmRows(id: nat, me: nat, other: nat, now: Time): seq<Participant> {
    [Participant(id, me, MemberRole, now, None, None), Participant(id, other, MemberRole, now, None, None)]
  }

  /** Membership after the two rows of a new conversation are appended. */
  lemma MemberAfterDmRows(parts: seq<Participant>, id: nat, me: nat, other: nat, now: Time, c: nat, u: nat)
    ensures IsMember(parts + DmRows(id, me, other, now), c, u)
        <==> IsMember(parts, c, u) || (c == id && (u == me || u == other))
  {
    var parts2 := parts + DmRows(id, me, other, now);
    if IsMember(parts, c, u) {
      var k :| 0 <= k < |parts| && parts[k].conversationId == c && parts[k].userId == u;
      assert parts2[k] == parts[k];
    }
    if c == id && u == me {
      assert parts2[|parts|].conversationId == c && parts2[|parts|].userId == u;
    }
    if c == id && u == other {
      assert parts2[|parts| + 1].conversationId == c && parts2[|parts| + 1].userId == u;
    }
    if IsMember(parts2, c, u) {
      var k :| 0 <= k < |parts2| && parts2[k].conversationId == c && parts2[k].userId == u;
      if k < |parts| {
        assert parts[k] == parts2[k];
      }
    }
  }

  /**
   * When no direct conversation joins `me` and `other` yet, creating one
   * with its two member rows keeps the tables well formed, and the new
   * conversation is then the direct conversation between them.
   */
  lemma AppendDmKeepsWellFormed(convs: seq<Conversation>, parts: seq<Participant>, msgs: seq<Message>, me: nat, other: nat, now: Time)
    requires TablesWellFormed(convs, parts, msgs)
    requires me != other && FindDm(convs, parts, me, other).None?
    ensures forall id :: !IsDmBetween(convs, parts, id, me, other)
    ensures var id := |convs| + 1;
            var convs2 := convs + [Conversation(id, Dm, Some(me), now)];
            var parts2 := parts + DmRows(id, me, other, now);
            TablesWellFormed(convs2, parts2, msgs) && IsDmBetween(convs2, parts2, id, me, other)
  {
    var id := |convs| + 1;
    var convs2 := convs + [Conversation(id, Dm, Some(me), now)];
    var parts2 := parts + DmRows(id, me, other, now);
    forall c: nat, u: nat | IsMember(parts, c, u) ensures c != id {
      var k :| 0 <= k < |parts| && parts[k].conversationId == c && parts[k].userId == u;
    }
    forall c: nat, u: nat ensures IsMember(parts2, c, u) <==> IsMember(parts, c, u) || (c == id && (u == me || u == other)) {
      MemberAfterDmRows(parts, id, me, other, now, c, u);
    }
    AppendDmKeepsUnique(convs, parts, me, other, now);
    forall i | 0 <= i < |msgs| ensures IsMember(parts2, msgs[i].conversationId, msgs[i].senderId) {
    }
    forall j, k | 0 <= j < k < |parts2|
      ensures parts2[j].conversationId != parts2[k].conversationId || parts2[j].userId != parts2[k].userId
    {
      if j < |parts| && k >= |parts| {
        assert IsMember(parts, parts[j].conversationId, parts[j].userId);
      }
    }
  }

  /** The new conversation is the only direct conversation between its two members. */
  lemma AppendDmKeepsUnique(convs: seq<Conversation>, parts: seq<Participant>, me: nat, other: nat, now: Time)
    requires forall i :: 0 <= i < |convs| ==> convs[i].id == i + 1
    requires forall k :: 0 <= k < |parts| ==> Exists(convs, parts[k].conversationId)
    requires DmsUnique(convs, parts) && me != other && FindDm(convs, parts, me, other).None?
    ensures DmsUnique(convs + [Conversation(|convs| + 1, Dm, Some(me), now)], parts + DmRows(|convs| + 1, me, other, now))
  {
    var id := |convs| + 1;
    var convs2 := convs + [Conversation(id, Dm, Some(me), now)];
    var parts2 := parts + DmRows(id, me, other, now);
    forall c: nat, u: nat | IsMember(parts, c, u) ensures c != id {
      var k :| 0 <= k < |parts| && parts[k].conversationId == c && parts[k].userId == u;
    }
    forall c: nat, u: nat ensures IsMember(parts2, c, u) <==> IsMember(parts, c, u) || (c == id && (u == me || u == other)) {
      MemberAfterDmRows(parts, id, me, other, now, c, u);
    }
    forall x: nat | x != id && Exists(convs2, x) ensures Exists(convs, x) && convs2[x - 1] == convs[x - 1] {
    }
    forall x: nat | Exists(convs, x) ensures convs[x - 1].id == x && !IsDmOf(parts, me, other, convs[x - 1]) {
    }
    forall c1: nat, c2: nat, a: nat, b: nat
      | IsDmBetween(convs2, parts2, c1, a, b) && IsDmBetween(convs2, parts2, c2, a, b)
      ensures c1 == c2
    {
      if c1 != id && c2 != id {
        assert IsDmBetween(convs, parts, c1, a, b) && IsDmBetween(convs, parts, c2, a, b);
      }
    }
  }

  /** A direct conversation is shared by its two members whichever of them asks. */
  lemma DmSameEitherWay(convs: seq<Conversation>, parts: seq<Participant>, msgs: seq<Message>, id1: nat, id2: nat, a: nat, b: nat)
    requires TablesWellFormed(convs, parts, msgs)
    requires IsDmBetween(convs, parts, id1, a, b) && IsDmBetween(convs, parts, id2, b, a)
    ensures id1 == id2
  {
    assert IsDmBetween(convs, parts, id2, a, b);
  }

  /**
   * `other` must name an existing client; a chat with oneself is refused;
   * an existing direct conversation between the two is returned unchanged;
   * otherwise a new one is created, by `me`, with both as members.
   */
  method CreateOrGetDm(db: ChatDb, me: nat, other: nat, clientIds: set<nat>, now: Time) returns (r: ChatReply)
    requires db.Valid()
    modifies db
    ensures db.Valid()
    ensures other !in clientIds ==> r == Invalid
    ensures other in clientIds && me == other ==> r == SelfChat
    ensures other in clientIds && me != other ==>
      r.DmReady? && IsDmBetween(db.conversations, db.participants, r.conversationId, me, other)
    ensures db.messages == old(db.messages)
    ensures !r.DmReady? || (exists id :: IsDmBetween(old(db.conversations), old(db.participants), id, me, other)) ==>
      db.conversations == old(db.conversations) && db.participants == old(db.participants)
    ensures r.DmReady? && (forall id :: !IsDmBetween(old(db.conversations), old(db.participants), id, me, other)) ==>
      && r.conversationId == |old(db.conversations)| + 1
      && db.conversations == old(db.conversations) + [Conversation(r.conversationId, Dm, Some(me), now)]
      && db.participants == old(db.participants) + DmRows(r.conversationId, me, other, now)
  {
    if other !in clientIds {
      return Invalid;
    }
    if me == other {
      return SelfChat;
    }
    var found := FindDm(db.conversations, db.participants, me, other);
    if found.Some? {
      var c := db.conversations[found.value];
      assert IsDmBetween(db.conversations, db.participants, c.id, me, other);
      return DmReady(c.id);
    }
    AppendDmKeepsWellFormed(db.conversations, db.participants, db.messages, me, other, now);
    var id := |db.conversations| + 1;
    db.conversations := db.conversations + [Conversation(id, Dm, Some(me), now)];
    db.participants := db.participants + DmRows(id, me, other, now);
    r := DmReady(id);
  }

  // ---------------------------------------------------------------------
  // clearForMe / hideForMe / unhideForMe
  // ---------------------------------------------------------------------

  /**
   * Sets the caller's own `cleared_at` to `now`: 404 for an unknown
   * conversation, 403 when the caller has no row in it.
   */
  method ClearForMe(db: ChatDb, convId: nat, me: nat, now: Time) returns (r: ChatReply)
    requires db.Valid()
    modifies db
    ensures db.Valid()
    ensures db.conversations == old(db.conversations) && db.messages == old(db.messages)
    ensures !Exists(db.conversations, convId) ==> r == NoSuchConversation
    ensures Exists(db.conversations, convId) && !IsMember(old(db.participants), convId, me) ==> r == NotParticipant
    ensures r != Done ==> db.participants == old(db.participants)
    ensures Exists(db.conversations, convId) && IsMember(old(db.participants), convId, me) ==>
      var k := FindParticipant(old(db.participants), convId, me).value;
      r == Done && db.participants == old(db.participants)[k := old(db.participants)[k].(clearedAt := Some(now))]
  {
    if !Exists(db.conversations, convId) {
      return NoSuchConversation;
    }
    var found := FindParticipant(db.participants, convId, me);
    if found.None? {
      return NotParticipant;
    }
    var k := found.value;
    var parts2 := db.participants[k := db.participants[k].(clearedAt := Some(now))];
    SameMembershipKeepsWellFormed(db.conversations, db.participants, parts2, db.messages);
    db.participants := parts2;
    r := Done;
  }

  /** Sets the caller's own `hidden_at` to `now`, under the same guards as `ClearForMe`. */
  method HideForMe(db: ChatDb, convId: nat, me: nat, now: Time) returns (r: ChatReply)
    requires db.Valid()
    modifies db
    ensures db.Valid()
    ensures db.conversations == old(db.conversations) && db.messages == old(db.messages)
    ensures !Exists(db.conversations, convId) ==> r == NoSuchConversation
    ensures Exists(db.conversations, convId) && !IsMember(old(db.participants), convId, me) ==> r == NotParticipant
    ensures r != Done ==> db.participants == old(db.participants)
    ensures Exists(db.conversations, convId) && IsMember(old(db.participants), convId, me) ==>
      var k := FindParticipant(old(db.participants), convId, me).value;
      r == Done && db.participants == old(db.participants)[k := old(db.participants)[k].(hiddenAt := Some(now))]
  {
    if !Exists(db.conversations, convId) {
      return NoSuchConversation;
    }
    var found := FindParticipant(db.participants, convId, me);
    if found.None? {
      return NotParticipant;
    }
    var k := found.value;
    var parts2 := db.participants[k := db.participants[k].(hiddenAt := Some(now))];
    SameMembershipKeepsWellFormed(db.conversations, db.participants, parts2, db.messages);
    db.participants := parts2;
    r := Done;
  }

  /** Clears the caller's own `hidden_at`, under the same guards as `ClearForMe`. */
  method UnhideForMe(db: ChatDb, convId: nat, me: nat) returns (r: ChatReply)
    requires db.Valid()
    modifies db
    ensures db.Valid()
    ensures db.conversations == old(db.conversations) && db.messages == old(db.messages)
    ensures !Exists(db.conversations, convId) ==> r == NoSuchConversation
    ensures Exists(db.conversations, convId) && !IsMember(old(db.participants), convId, me) ==> r == NotParticipant
    ensures r != Done ==> db.participants == old(db.participants)
    ensures Exists(db.conversations, convId) && IsMember(old(db.participants), convId, me) ==>
      var k := FindParticipant(old(db.participants), convId, me).value;
      r == Done && db.participants == old(db.participants)[k := old(db.participants)[k].(hiddenAt := None)]
  {
    if !Exists(db.conversations, convId) {
      return NoSuchConversation;
    }
    var found := FindParticipant(db.participants, convId, me);
    if found.None? {
      return NotParticipant;
    }
    var k := found.value;
    var parts2 := db.participants[k := db.participants[k].(hiddenAt := None)];
    SameMembershipKeepsWellFormed(db.conversations, db.participants, parts2, db.messages);
    db.participants := parts2;
    r := Done;
  }

  // ---------------------------------------------------------------------
  // index: the caller's conversation list
  // ---------------------------------------------------------------------

  /** The caller has a row in `conv` whose `hidden_at` is null. */
  predicate VisibleTo(parts: seq<Participant>, conv: nat, me: nat) {
    exists k :: 0 <= k < |parts| && parts[k].conversationId == conv && parts[k].userId == me && parts[k].hiddenAt.None?
  }

  /** `created_at` of the conversation's newest message, or -1 (sorting last) when it has none. */
  function LatestAt(msgs: seq<Message>, conv: nat): (t: int)
    ensures t >= -1
    ensures t == -1 <==> forall m :: m in msgs ==> m.conversationId != conv
    ensures forall m :: m in msgs && m.conversationId == conv ==> m.createdAt <= t
    ensures t >= 0 ==> exists m :: m in msgs && m.conversationId == conv && m.createdAt == t
  {
    if msgs == [] then -1
    else
      assert msgs == [msgs[0]] + msgs[1..];
      var rest := LatestAt(msgs[1..], conv);
      if msgs[0].conversationId == conv && msgs[0].createdAt > rest then msgs[0].createdAt else rest
  }

  /** The conversation's message appended last (`latestOfMany`, the highest id). */
  function LastMessage(msgs: seq<Message>, conv: nat): (r: Option<Message>)
    ensures r.None? <==> forall i :: 0 <= i < |msgs| ==> msgs[i].conversationId != conv
    ensures r.Some? ==> exists i :: 0 <= i < |msgs| && msgs[i] == r.value && r.value.conversationId == conv
                                   && forall j :: i < j < |msgs| ==> msgs[j].conversationId != conv
  {
    if msgs == [] then None
    else if msgs[|msgs| - 1].conversationId == conv then Some(msgs[|msgs| - 1])
    else
      var r := LastMessage(msgs[..|msgs| - 1], conv);
      if r.Some? then
        var i :| 0 <= i < |msgs| - 1 && msgs[i] == r.value && r.value.conversationId == conv
                 && forall j :: i < j < |msgs| - 1 ==> msgs[j].conversationId != conv;
        r
      else r
  }

  /** With ids assigned in insertion order, the message appended last has the highest id. */
  lemma LastMessageHasHighestId(msgs: seq<Message>, conv: nat)
    requires forall i :: 0 <= i < |msgs| ==> msgs[i].id == i + 1
    ensures LastMessage(msgs, conv).Some? ==>
      forall m :: m in msgs && m.conversationId == conv ==> m.id <= LastMessage(msgs, conv).value.id
  {
    var r := LastMessage(msgs, conv);
    if r.Some? {
      var i :| 0 <= i < |msgs| && msgs[i] == r.value && r.value.conversationId == conv
               && forall j :: i < j < |msgs| ==> msgs[j].conversationId != conv;
      forall m | m in msgs && m.conversationId == conv ensures m.id <= r.value.id {
        var j :| 0 <= j < |msgs| && msgs[j] == m;
      }
    }
  }

  /** `clients->firstWhere('id', '!=', me)`: the first other member, in participant-row order. */
  function OtherMember(parts: seq<Participant>, conv: nat, me: nat): (r: Option<nat>)
    ensures r.Some? ==> r.value != me && IsMember(parts, conv, r.value)
    ensures r.None? <==> forall k :: 0 <= k < |parts| && parts[k].conversationId == conv ==> parts[k].userId == me
  {
    match FirstWhere(parts, (p: Participant) => p.conversationId == conv && p.userId != me)
    case None => None
    case Some(k) => Some(parts[k].userId)
  }

  /** One entry of the conversation list. */
  datatype Summary = Summary(conversation: Conversation, other: Option<nat>, lastMessage: Option<Message>)

  function SummaryOf(c: Conversation, parts: seq<Participant>, msgs: seq<Message>, me: nat): Summary {
    Summary(c, OtherMember(parts, c.id, me), LastMessage(msgs, c.id))
  }

  /** The row condition of the list query. */
  function Visible(parts: seq<Participant>, me: nat): Conversation -> bool {
    (c: Conversation) => VisibleTo(parts, c.id, me)
  }

  /** The list order: newest message first, conversations without messages last. */
  function NewestFirst(msgs: seq<Message>): Conversation -> int {
    (c: Conversation) => -LatestAt(msgs, c.id)
  }

  /** The conversations the caller has not hidden, newest activity first. */
  function OrderedVisible(convs: seq<Conversation>, parts: seq<Participant>, msgs: seq<Message>, me: nat): (r: seq<Conversation>)
    ensures forall c :: c in r <==> c in convs && VisibleTo(parts, c.id, me)
    ensures forall c :: multiset(r)[c] == if VisibleTo(parts, c.id, me) then multiset(convs)[c] else 0
    ensures forall i, j :: 0 <= i < j < |r| ==> LatestAt(msgs, r[i].id) >= LatestAt(msgs, r[j].id)
  {
    var shown := Filter(convs, Visible(parts, me));
    var ordered := SortBy(shown, NewestFirst(msgs));
    VisibleCounts(convs, shown, ordered, parts, me);
    ordered
  }

  lemma VisibleCounts(convs: seq<Conversation>, shown: seq<Conversation>, ordered: seq<Conversation>, parts: seq<Participant>, me: nat)
    requires shown == Filter(convs, Visible(parts, me)) && multiset(ordered) == multiset(shown)
    ensures forall c :: c in ordered <==> c in convs && VisibleTo(parts, c.id, me)
    ensures forall c :: multiset(ordered)[c] == if VisibleTo(parts, c.id, me) then multiset(convs)[c] else 0
  {
    SameElements(shown, ordered);
  }

  /** One summary per conversation, in the same order. */
  function Summaries(ordered: seq<Conversation>, parts: seq<Participant>, msgs: seq<Message>, me: nat): (r: seq<Summary>)
    ensures |r| == |ordered|
    ensures forall i :: 0 <= i < |r| ==> r[i].conversation == ordered[i]
    ensures forall i :: 0 <= i < |r| ==>
      && r[i].other == OtherMember(parts, r[i].conversation.id, me)
      && r[i].lastMessage == LastMessage(msgs, r[i].conversation.id)
  {
    seq(|ordered|, i requires 0 <= i < |ordered| => SummaryOf(ordered[i], parts, msgs, me))
  }

  /**
   * The caller's conversation list: exactly the conversations the caller
   * has a non-hidden row in, newest activity first, each with its first
   * other member and its latest message.
   */
  function ListConversations(convs: seq<Conversation>, parts: seq<Participant>, msgs: seq<Message>, me: nat): (r: seq<Summary>)
    ensures forall i :: 0 <= i < |r| ==> r[i].conversation in convs && VisibleTo(parts, r[i].conversation.id, me)
    ensures forall c :: c in convs && VisibleTo(parts, c.id, me) ==> exists i :: 0 <= i < |r| && r[i].conversation == c
    ensures forall c :: multiset(ConversationsOf(r))[c] == if VisibleTo(parts, c.id, me) then multiset(convs)[c] else 0
    ensures forall i, j :: 0 <= i < j < |r| ==>
      LatestAt(msgs, r[i].conversation.id) >= LatestAt(msgs, r[j].conversation.id)
    ensures forall i :: 0 <= i < |r| ==>
      && r[i].other == OtherMember(parts, r[i].conversation.id, me)
      && r[i].lastMessage == LastMessage(msgs, r[i].conversation.id)
  {
    var ordered := OrderedVisible(convs, parts, msgs, me);
    var r := Summaries(ordered, parts, msgs, me);
    SummariesCover(ordered, r);
    r
  }

  /** The conversations a list shows, in list order. */
  function ConversationsOf(r: seq<Summary>): (cs: seq<Conversation>)
    ensures |cs| == |r| && forall i :: 0 <= i < |r| ==> cs[i] == r[i].conversation
  {
    seq(|r|, i requires 0 <= i < |r| => r[i].conversation)
  }

  lemma SummariesCover(ordered: seq<Conversation>, r: seq<Summary>)
    requires |r| == |ordered| && forall i :: 0 <= i < |r| ==> r[i].conversation == ordered[i]
    ensures ConversationsOf(r) == ordered
    ensures forall i :: 0 <= i < |r| ==> r[i].conversation in ordered
    ensures forall c :: c in ordered ==> exists i :: 0 <= i < |r| && r[i].conversation == c
  {
    forall c | c in ordered ensures exists i :: 0 <= i < |r| && r[i].conversation == c {
      var i :| 0 <= i < |ordered| && ordered[i] == c;
      assert r[i].conversation == c;
    }
  }

  // ---------------------------------------------------------------------
  // messages: the caller's view of one conversation
  // ---------------------------------------------------------------------

  /** A message of `conv` newer than the caller's `cleared_at`, if any. */
  predicate ShownAfterClear(m: Message, conv: nat, cleared: Option<Time>) {
    m.conversationId == conv && (cleared.None? || m.createdAt > cleared.value)
  }

  /** The row condition of the message query. */
  function AfterClear(conv: nat, cleared: Option<Time>): Message -> bool {
    (m: Message) => ShownAfterClear(m, conv, cleared)
  }

  function Oldest(m: Message): int {
    m.createdAt
  }

  /**
   * 404 for an unknown conversation, 403 without a row, 404 "Chat deleted"
   * while hidden; otherwise the messages after the caller's `cleared_at`,
   * oldest first.
   */
  function ConversationMessages(convs: seq<Conversation>, parts: seq<Participant>, msgs: seq<Message>, convId: nat, me: nat): (r: ChatReply)
    ensures r == NoSuchConversation <==> !Exists(convs, convId)
    ensures r == NotParticipant <==> Exists(convs, convId) && !IsMember(parts, convId, me)
    ensures r == ChatDeleted <==>
      Exists(convs, convId) && IsMember(parts, convId, me) && parts[FindParticipant(parts, convId, me).value].hiddenAt.Some?
    ensures r.MessageList? <==> r != NoSuchConversation && r != NotParticipant && r != ChatDeleted
    ensures r.MessageList? ==>
      var row := parts[FindParticipant(parts, convId, me).value];
      && (forall m :: m in r.messages <==> m in msgs && ShownAfterClear(m, convId, row.clearedAt))
      && (forall m :: multiset(r.messages)[m] == if ShownAfterClear(m, convId, row.clearedAt) then multiset(msgs)[m] else 0)
      && SortedBy(r.messages, Oldest)
  {
    if !Exists(convs, convId) then NoSuchConversation
    else match FindParticipant(parts, convId, me)
      case None => NotParticipant
      case Some(k) =>
        if parts[k].hiddenAt.Some? then ChatDeleted
        else
          var shown := Filter(msgs, AfterClear(convId, parts[k].clearedAt));
          var ordered := SortBy(shown, Oldest);
          assert forall m :: m in ordered <==> m in shown by {
            forall m ensures m in ordered <==> m in shown {
              assert m in ordered <==> m in multiset(ordered);
              assert m in shown <==> m in multiset(shown);
            }
          }
          MessageList(ordered)
  }

  // ---------------------------------------------------------------------
  // What the switches do to the two views
  // ---------------------------------------------------------------------

  /** Once the caller's only row in a conversation is hidden, the conversation is not visible to them. */
  lemma HiddenRowNotVisible(parts: seq<Participant>, k: nat, now: Time)
    requires RowsUnique(parts) && k < |parts|
    ensures !VisibleTo(parts[k := parts[k].(hiddenAt := Some(now))], parts[k].conversationId, parts[k].userId)
  {
    var parts2 := parts[k := parts[k].(hiddenAt := Some(now))];
    forall j | 0 <= j < |parts2| && parts2[j].conversationId == parts[k].conversationId && parts2[j].userId == parts[k].userId
      ensures j == k
    {
    }
  }

  /** After hiding, the conversation leaves the caller's list and its messages answer "Chat deleted". */
  lemma HideRemovesConversation(convs: seq<Conversation>, parts: seq<Participant>, msgs: seq<Message>, conv: nat, me: nat, now: Time)
    requires RowsUnique(parts)
    requires Exists(convs, conv) && IsMember(parts, conv, me)
    ensures var k := FindParticipant(parts, conv, me).value;
            var parts2 := parts[k := parts[k].(hiddenAt := Some(now))];
            && (forall s :: s in ListConversations(convs, parts2, msgs, me) ==> s.conversation.id != conv)
            && ConversationMessages(convs, parts2, msgs, conv, me) == ChatDeleted
  {
    var k := FindParticipant(parts, conv, me).value;
    var parts2 := parts[k := parts[k].(hiddenAt := Some(now))];
    SameMembershipKeepsLookups(parts, parts2, conv, me);
    HiddenRowNotVisible(parts, k, now);
    var list := ListConversations(convs, parts2, msgs, me);
    forall s | s in list ensures s.conversation.id != conv {
      var i :| 0 <= i < |list| && list[i] == s;
    }
  }

  /** After unhiding, the conversation is back in the caller's list and its messages load again. */
  lemma {:induction false} UnhideRestoresConversation(convs: seq<Conversation>, parts: seq<Participant>, msgs: seq<Message>, conv: nat, me: nat)
    requires TablesWellFormed(convs, parts, msgs)
    requires Exists(convs, conv) && IsMember(parts, conv, me)
    ensures var k := FindParticipant(parts, conv, me).value;
            var parts2 := parts[k := parts[k].(hiddenAt := None)];
            && (exists s :: s in ListConversations(convs, parts2, msgs, me) && s.conversation.id == conv)
            && ConversationMessages(convs, parts2, msgs, conv, me).MessageList?
  {
    var k := FindParticipant(parts, conv, me).value;
    var parts2 := parts[k := parts[k].(hiddenAt := None)];
    SameMembershipKeepsLookups(parts, parts2, conv, me);
    var c := convs[conv - 1];
    assert c in convs && c.id == conv;
    assert VisibleTo(parts2, conv, me) by {
      assert parts2[k].conversationId == conv && parts2[k].userId == me && parts2[k].hiddenAt.None?;
    }
    var list := ListConversations(convs, parts2, msgs, me);
    var i :| 0 <= i < |list| && list[i].conversation == c;
    assert list[i] in list;
  }

  /** After clearing at `now`, the caller sees exactly the messages of the conversation created after `now`. */
  lemma ClearShowsOnlyLaterMessages(convs: seq<Conversation>, parts: seq<Participant>, msgs: seq<Message>, conv: nat, me: nat, now: Time)
    requires Exists(convs, conv) && IsMember(parts, conv, me)
    requires parts[FindParticipant(parts, conv, me).value].hiddenAt.None?
    ensures var k := FindParticipant(parts, conv, me).value;
            var r := ConversationMessages(convs, parts[k := parts[k].(clearedAt := Some(now))], msgs, conv, me);
            && r.MessageList?
            && forall m :: m in r.messages <==> m in msgs && m.conversationId == conv && m.createdAt > now
  {
    var k := FindParticipant(parts, conv, me).value;
    var parts2 := parts[k := parts[k].(clearedAt := Some(now))];
    SameMembershipKeepsLookups(parts, parts2, conv, me);
  }

  /** Rows of `you` are untouched when row `k` belongs to someone else. */
  lemma VisibilityOfOthersUnaffected(parts: seq<Participant>, k: nat, row: Participant, you: nat, c: nat)
    requires k < |parts| && parts[k].userId != you && row.userId == parts[k].userId
    ensures VisibleTo(parts[k := row], c, you) == VisibleTo(parts, c, you)
  {
    var parts2 := parts[k := row];
    if VisibleTo(parts, c, you) {
      var j :| 0 <= j < |parts| && parts[j].conversationId == c && parts[j].userId == you && parts[j].hiddenAt.None?;
      assert parts2[j] == parts[j];
    }
    if VisibleTo(parts2, c, you) {
      var j :| 0 <= j < |parts2| && parts2[j].conversationId == c && parts2[j].userId == you && parts2[j].hiddenAt.None?;
      assert parts2[j] == parts[j];
    }
  }

  /** The "other member" lookup reads only membership columns. */
  lemma OtherMemberUnaffected(parts: seq<Participant>, parts2: seq<Participant>, c: nat, you: nat)
    requires SameMembership(parts, parts2)
    ensures OtherMember(parts2, c, you) == OtherMember(parts, c, you)
  {
    var p := (x: Participant) => x.conversationId == c && x.userId != you;
    assert forall j :: 0 <= j < |parts| ==> p(parts2[j]) == p(parts[j]) && parts2[j].userId == parts[j].userId;
  }

  /** The caller's list depends on the participant table only through the caller's visibility and membership. */
  lemma {:induction false} ListUnaffected(convs: seq<Conversation>, parts: seq<Participant>, parts2: seq<Participant>, msgs: seq<Message>, you: nat)
    requires SameMembership(parts, parts2)
    requires forall c: nat :: VisibleTo(parts2, c, you) == VisibleTo(parts, c, you)
    ensures ListConversations(convs, parts2, msgs, you) == ListConversations(convs, parts, msgs, you)
  {
    FilterAgreeing(convs, Visible(parts2, you), Visible(parts, you));
    var ordered := OrderedVisible(convs, parts, msgs, you);
    assert OrderedVisible(convs, parts2, msgs, you) == ordered;
    var a, b := ListConversations(convs, parts2, msgs, you), ListConversations(convs, parts, msgs, you);
    forall i | 0 <= i < |ordered| ensures a[i] == b[i] {
      OtherMemberUnaffected(parts, parts2, ordered[i].id, you);
    }
  }

  /**
   * Switches are per member: changing the visibility columns of one
   * member's row changes neither the list nor the message view of any
   * other member.
   */
  lemma OtherMembersUnaffected(convs: seq<Conversation>, parts: seq<Participant>, msgs: seq<Message>, k: nat, row: Participant, you: nat, conv: nat)
    requires k < |parts| && parts[k].userId != you
    requires row.conversationId == parts[k].conversationId && row.userId == parts[k].userId
    ensures ListConversations(convs, parts[k := row], msgs, you) == ListConversations(convs, parts, msgs, you)
    ensures ConversationMessages(convs, parts[k := row], msgs, conv, you) == ConversationMessages(convs, parts, msgs, conv, you)
  {
    var parts2 := parts[k := row];
    forall c: nat ensures VisibleTo(parts2, c, you) == VisibleTo(parts, c, you) {
      VisibilityOfOthersUnaffected(parts, k, row, you, c);
    }
    ListUnaffected(convs, parts, parts2, msgs, you);
    MessagesViewUnaffected(convs, parts, msgs, k, row, you, conv);
  }

  /** The message view reads only the caller's own row, which a change to another member's row leaves alone. */
  lemma MessagesViewUnaffected(convs: seq<Conversation>, parts: seq<Participant>, msgs: seq<Message>, k: nat, row: Participant, you: nat, conv: nat)
    requires k < |parts| && parts[k].userId != you
    requires row.conversationId == parts[k].conversationId && row.userId == parts[k].userId
    ensures ConversationMessages(convs, parts[k := row], msgs, conv, you) == ConversationMessages(convs, parts, msgs, conv, you)
  {
    var parts2 := parts[k := row];
    SameMembershipKeepsLookups(parts, parts2, conv, you);
    var f := FindParticipant(parts, conv, you);
    if f.Some? {
      assert parts2[f.value] == parts[f.value];
    }
  }
}
