/**
 * The chat tables: conversations, their participant rows (one per member,
 * each carrying that member's own `cleared_at` and `hidden_at`) and the
 * append-only message log.
 */
module Chat {
  import opened Wrappers

  datatype ConversationType = Dm | Community

  datatype Conversation = Conversation(id: nat, kind: ConversationType, createdBy: Option<nat>, createdAt: Time)

  datatype Participant = Participant(
    conversationId: nat,
    userId: nat,
    role: string,
    createdAt: Time,
    clearedAt: Option<Time>,
    hiddenAt: Option<Time>)

  datatype Message = Message(id: nat, conversationId: nat, senderId: nat, body: string, createdAt: Time)

  /** The role every member of a direct conversation gets. */
  const MemberRole := "member"

  /** `user` has a participant row in conversation `conv`. */
  predicate IsMember(parts: seq<Participant>, conv: nat, user: nat) {
    exists k :: 0 <= k < |parts| && parts[k].conversationId == conv && parts[k].userId == user
  }

  /** `ConversationParticipant::where('conversation_id', ..)->where('user_id', ..)->first()`. */
  function FindParticipant(parts: seq<Participant>, conv: nat, user: nat): (r: Option<nat>)
    ensures r.Some? ==> r.value < |parts| && parts[r.value].conversationId == conv && parts[r.value].userId == user
    ensures r.None? <==> !IsMember(parts, conv, user)
  {
    FirstWhere(parts, (p: Participant) => p.conversationId == conv && p.userId == user)
  }

  /** Conversation `id` exists (route-model binding answers 404 otherwise). */
  predicate Exists(convs: seq<Conversation>, id: nat) {
    1 <= id <= |convs|
  }

  /** Conversation `id` is a direct conversation having both `a` and `b`, two distinct users, as members. */
  predicate IsDmBetween(convs: seq<Conversation>, parts: seq<Participant>, id: nat, a: nat, b: nat) {
    a != b && Exists(convs, id) && convs[id - 1].kind == Dm && IsMember(parts, id, a) && IsMember(parts, id, b)
  }

  /**
   * Ids follow insertion order from 1; every participant row and message
   * belongs to an existing conversation; a (conversation, user) pair has at
   * most one row; every message was sent by a member; and two distinct users
   * share at most one direct conversation.
   */
  ghost predicate TablesWellFormed(convs: seq<Conversation>, parts: seq<Participant>, msgs: seq<Message>) {
    && (forall i :: 0 <= i < |convs| ==> convs[i].id == i + 1)
    && (forall k :: 0 <= k < |parts| ==> Exists(convs, parts[k].conversationId))
    && RowsUnique(parts)
    && (forall i :: 0 <= i < |msgs| ==> msgs[i].id == i + 1 && Exists(convs, msgs[i].conversationId))
    && (forall i :: 0 <= i < |msgs| ==> IsMember(parts, msgs[i].conversationId, msgs[i].senderId))
    && DmsUnique(convs, parts)
  }

  /**
   * A user has at most one row per conversation. No schema constraint says so;
   * it holds because `createOrGetDm` is the only code that adds participant rows.
   */
  predicate RowsUnique(parts: seq<Participant>) {
    forall j, k :: 0 <= j < k < |parts| ==>
      parts[j].conversationId != parts[k].conversationId || parts[j].userId != parts[k].userId
  }

  /** Two distinct users share at most one direct conversation. */
  ghost predicate DmsUnique(convs: seq<Conversation>, parts: seq<Participant>) {
    forall c1, c2, a, b :: IsDmBetween(convs, parts, c1, a, b) && IsDmBetween(convs, parts, c2, a, b) ==> c1 == c2
  }

  /** Two versions of the participant table that differ at most in their `cleared_at` / `hidden_at` columns. */
  predicate SameMembership(parts: seq<Participant>, parts2: seq<Participant>) {
    && |parts| == |parts2|
    && forall k :: 0 <= k < |parts| ==>
         parts2[k].conversationId == parts[k].conversationId && parts2[k].userId == parts[k].userId
  }

  /** Changing visibility columns changes neither membership nor which row a lookup finds. */
  lemma SameMembershipKeepsLookups(parts: seq<Participant>, parts2: seq<Participant>, conv: nat, user: nat)
    requires SameMembership(parts, parts2)
    ensures IsMember(parts2, conv, user) <==> IsMember(parts, conv, user)
    ensures FindParticipant(parts2, conv, user) == FindParticipant(parts, conv, user)
  {
    if IsMember(parts, conv, user) {
      var k :| 0 <= k < |parts| && parts[k].conversationId == conv && parts[k].userId == user;
      assert parts2[k].conversationId == conv && parts2[k].userId == user;
    }
    if IsMember(parts2, conv, user) {
      var k :| 0 <= k < |parts2| && parts2[k].conversationId == conv && parts2[k].userId == user;
      assert parts[k].conversationId == conv && parts[k].userId == user;
    }
  }

  /** Changing visibility columns keeps the tables well formed. */
  lemma SameMembershipKeepsWellFormed(convs: seq<Conversation>, parts: seq<Participant>, parts2: seq<Participant>, msgs: seq<Message>)
    requires TablesWellFormed(convs, parts, msgs) && SameMembership(parts, parts2)
    ensures TablesWellFormed(convs, parts2, msgs)
  {
    forall c1: nat, c2: nat, a: nat, b: nat
      | IsDmBetween(convs, parts2, c1, a, b) && IsDmBetween(convs, parts2, c2, a, b)
      ensures c1 == c2
    {
      SameMembershipKeepsLookups(parts, parts2, c1, a);
      SameMembershipKeepsLookups(parts, parts2, c1, b);
      SameMembershipKeepsLookups(parts, parts2, c2, a);
      SameMembershipKeepsLookups(parts, parts2, c2, b);
      assert IsDmBetween(convs, parts, c1, a, b) && IsDmBetween(convs, parts, c2, a, b);
    }
    forall i | 0 <= i < |msgs| ensures IsMember(parts2, msgs[i].conversationId, msgs[i].senderId) {
      SameMembershipKeepsLookups(parts, parts2, msgs[i].conversationId, msgs[i].senderId);
    }
  }

  /** The chat tables, updated in place by the conversation and message endpoints. */
  class ChatDb {
    var conversations: seq<Conversation>
    var participants: seq<Participant>
    var messages: seq<Message>

    ghost predicate Valid()
      reads this
    {
      TablesWellFormed(conversations, participants, messages)
    }

    constructor ()
      ensures Valid() && conversations == [] && participants == [] && messages == []
    {
      conversations, participants, messages := [], [], [];
    }
  }

  /** The replies of the conversation and message endpoints. */
  datatype ChatReply =
    | NoSuchConversation                 // route-model binding
    | Invalid                            // a validation rule failed
    | SelfChat                           // "You cannot start a chat with yourself."
    | NotParticipant
    | ChatDeleted                        // the caller hid the conversation
    | Done                               // clear, hide, unhide
    | DmReady(conversationId: nat)
    | Posted(message: Message)
    | MessageList(messages: seq<Message>)
  {
    function Status(): int {
      match this
      case NoSuchConversation => 404
      case Invalid => 422
      case SelfChat => 422
      case NotParticipant => 403
      case ChatDeleted => 404
      case Done => 200
      case DmReady(_) => 200
      case Posted(_) => 201
      case MessageList(_) => 200
    }
  }
}
