/** The message routes: sending a direct message (which appends the message
    and upserts the conversation of the two users), listing the messages of
    one conversation, and listing a user's conversations. Conversations are a
    summary over the messages: at most one per unordered pair of users, each
    pointing at the newest message between its pair. */
module Messages {
  import opened Collections

  /** The `participants` array of a conversation, `[first, second]`. */
  datatype Pair = Pair(first: UserId, second: UserId) {
    predicate Has(u: UserId) {
      first == u || second == u
    }
  }

  /** The same two users, in either order. */
  predicate SamePair(p: Pair, q: Pair) {
    (p.first == q.first && p.second == q.second) || (p.first == q.second && p.second == q.first)
  }

  datatype Message = Message(id: nat, sender: UserId, receiver: UserId, text: string, createdAt: nat)

  /** The message went from one user of the pair to the other, in either
      direction (the `$or` of the message query). */
  predicate Between(m: Message, p: Pair) {
    SamePair(Pair(m.sender, m.receiver), p)
  }

  datatype Conversation = Conversation(id: nat, participants: Pair, lastMessage: Option<nat>, updatedAt: nat)

  /** The `lastMessage` of a listed conversation: `{ text, createdAt }`. */
  datatype Summary = Summary(text: string, createdAt: nat)

  /** One entry of GET /conversations: the conversation id, the participant
      who is not the caller, and the last message (null when absent). */
  datatype ConversationView = ConversationView(id: nat, other: UserId, lastMessage: Option<Summary>)

  // ---------------------------------------------------------------------
  // The newest message of a pair

  /** Position of the last message between the pair. */
  function NewestIndex(ms: seq<Message>, p: Pair): (r: Option<nat>)
    ensures r.Some? ==> r.value < |ms| && Between(ms[r.value], p)
    ensures r.Some? ==> forall j :: r.value < j < |ms| ==> !Between(ms[j], p)
    ensures r.None? <==> forall j :: 0 <= j < |ms| ==> !Between(ms[j], p)
  {
    if ms == [] then None
    else if Between(ms[|ms| - 1], p) then Some(|ms| - 1)
    else NewestIndex(ms[..|ms| - 1], p)
  }

  function NewestId(ms: seq<Message>, p: Pair): Option<nat> {
    match NewestIndex(ms, p)
    case None => None
    case Some(k) => Some(ms[k].id)
  }

  function NewestSummary(ms: seq<Message>, p: Pair): Option<Summary> {
    match NewestIndex(ms, p)
    case None => None
    case Some(k) => Some(Summary(ms[k].text, ms[k].createdAt))
  }

  /** Messages are stored in creation order, with distinct ids. */
  ghost predicate MessagesOk(ms: seq<Message>, clock: nat, nextId: nat) {
    && (forall i :: 0 <= i < |ms| ==> ms[i].id < nextId && ms[i].createdAt < clock)
    && (forall i, j :: 0 <= i < j < |ms| ==> ms[i].createdAt < ms[j].createdAt && ms[i].id != ms[j].id)
  }

  /** The last message between a pair is the newest one: no message between
      the pair was created after it. */
  lemma NewestIndexIsNewest(ms: seq<Message>, clock: nat, nextId: nat, p: Pair)
    requires MessagesOk(ms, clock, nextId)
    requires NewestIndex(ms, p).Some?
    ensures forall j :: 0 <= j < |ms| && Between(ms[j], p) ==>
      ms[j].createdAt <= ms[NewestIndex(ms, p).value].createdAt
  {
  }

  /** Which of the two orders a pair is written in does not matter. */
  lemma NewestIndexSamePair(ms: seq<Message>, p: Pair, q: Pair)
    requires SamePair(p, q)
    ensures NewestIndex(ms, p) == NewestIndex(ms, q)
  {
    var a, b := NewestIndex(ms, p), NewestIndex(ms, q);
    assert forall j :: 0 <= j < |ms| ==> (Between(ms[j], p) <==> Between(ms[j], q));
    if a.Some? && b.Some? {
      assert !(a.value < b.value) && !(b.value < a.value);
    }
  }

  /** Appending a message makes it the newest of its own pair and changes
      the newest message of no other pair. */
  lemma NewestAfterAppend(ms: seq<Message>, m: Message, p: Pair)
    ensures NewestIndex(ms + [m], p) == if Between(m, p) then Some(|ms|) else NewestIndex(ms, p)
  {
    assert (ms + [m])[..|ms|] == ms;
  }

  // ---------------------------------------------------------------------
  // Finding a pair's conversation

  /** Each unordered pair of users has at most one conversation. */
  ghost predicate UniquePairs(cs: seq<Conversation>) {
    forall i, j :: 0 <= i < j < |cs| ==> !SamePair(cs[i].participants, cs[j].participants)
  }

  /** The conversation of exactly the pair `{a, b}`. */
  function FindConversation(cs: seq<Conversation>, a: UserId, b: UserId): (r: Option<nat>)
    ensures r.Some? ==> r.value < |cs| && SamePair(cs[r.value].participants, Pair(a, b))
    ensures r.None? <==> forall j :: 0 <= j < |cs| ==> !SamePair(cs[j].participants, Pair(a, b))
  {
    FirstWhere(cs, (c: Conversation) => SamePair(c.participants, Pair(a, b)))
  }

  /** The lookup as the route writes it, `{ participants: { $all: [a, b] } }`:
      the first conversation that contains both users. When `a == b` that is
      any conversation containing `a`. */
  function FindConversationAsWritten(cs: seq<Conversation>, a: UserId, b: UserId): (r: Option<nat>)
    ensures r.Some? ==> r.value < |cs| && cs[r.value].participants.Has(a) && cs[r.value].participants.Has(b)
    ensures r.None? <==> forall j :: 0 <= j < |cs| ==> !(cs[j].participants.Has(a) && cs[j].participants.Has(b))
  {
    FirstWhere(cs, (c: Conversation) => c.participants.Has(a) && c.participants.Has(b))
  }

  /** Two first-match searches over the same sequence agree when their tests
      agree on every element. */
  lemma FirstWhereAgree<T>(s: seq<T>, p: T -> bool, q: T -> bool)
    requires forall j :: 0 <= j < |s| ==> p(s[j]) == q(s[j])
    ensures FirstWhere(s, p) == FirstWhere(s, q)
  {
    var a, b := FirstWhere(s, p), FirstWhere(s, q);
    if a.Some? && b.Some? {
      assert !(a.value < b.value) && !(b.value < a.value);
    }
  }

  /** Between two different users the lookup as written finds the pair's own
      conversation; the two lookups differ only when a user writes to
      themself. */
  lemma AsWrittenAgreesForTwoUsers(cs: seq<Conversation>, a: UserId, b: UserId)
    requires a != b
    ensures FindConversationAsWritten(cs, a, b) == FindConversation(cs, a, b)
  {
    FirstWhereAgree(cs, (c: Conversation) => c.participants.Has(a) && c.participants.Has(b),
                        (c: Conversation) => SamePair(c.participants, Pair(a, b)));
  }

  /** With at most one conversation per pair, the conversation found is the
      only one of the pair. */
  lemma FindConversationUnique(cs: seq<Conversation>, a: UserId, b: UserId, i: nat)
    requires UniquePairs(cs)
    requires i < |cs| && SamePair(cs[i].participants, Pair(a, b))
    ensures FindConversation(cs, a, b) == Some(i)
  {
    var r := FindConversation(cs, a, b);
    if r.value < i {
      assert SamePair(cs[r.value].participants, cs[i].participants);
    }
  }

  // ---------------------------------------------------------------------
  // POST / : send a message

  /** `conversation.lastMessage = ...; conversation.updatedAt = Date.now()`. */
  function Touch(c: Conversation, msgId: nat, now: nat): Conversation {
    c.(lastMessage := Some(msgId), updatedAt := now)
  }

  /** The conversations after a message `msgId` from `a` to `b` at time
      `now`: the pair's conversation is touched, or, when there is none, a
      conversation `[a, b]` with id `newId` is added. */
  function Upserted(cs: seq<Conversation>, a: UserId, b: UserId, msgId: nat, now: nat, newId: nat): (r: seq<Conversation>)
    ensures |r| == |cs| + (if FindConversation(cs, a, b).None? then 1 else 0)
    ensures forall i :: 0 <= i < |cs| && !SamePair(cs[i].participants, Pair(a, b)) ==> r[i] == cs[i]
  {
    match FindConversation(cs, a, b)
    case None => cs + [Conversation(newId, Pair(a, b), Some(msgId), now)]
    case Some(i) => cs[i := Touch(cs[i], msgId, now)]
  }

  /** The whole store: the messages, and conversations with distinct ids,
      one per pair, each pointing at the newest message between its pair. */
  ghost predicate StoreOk(ms: seq<Message>, cs: seq<Conversation>, clock: nat, nextId: nat) {
    && MessagesOk(ms, clock, nextId)
    && (forall i :: 0 <= i < |cs| ==> cs[i].id < nextId && cs[i].updatedAt < clock)
    && (forall i, j :: 0 <= i < j < |cs| ==> cs[i].id != cs[j].id)
    && UniquePairs(cs)
    && (forall i {:trigger PointsAtNewest(ms, cs[i])} :: 0 <= i < |cs| ==> PointsAtNewest(ms, cs[i]))
  }

  /** The conversation refers to the newest message between its pair. */
  ghost predicate PointsAtNewest(ms: seq<Message>, c: Conversation) {
    c.lastMessage == NewestId(ms, c.participants)
  }

  /** Where the upsert puts the pair's conversation. */
  function UpsertIndex(cs: seq<Conversation>, a: UserId, b: UserId): nat {
    match FindConversation(cs, a, b)
    case None => |cs|
    case Some(i) => i
  }

  /** The upsert changes one slot, the pair's, and no other; a pair that had
      one conversation still has one. */
  lemma {:induction false} UpsertedShape(cs: seq<Conversation>, a: UserId, b: UserId, msgId: nat, now: nat, newId: nat)
    ensures var cs' := Upserted(cs, a, b, msgId, now, newId);
      var k := UpsertIndex(cs, a, b);
      && |cs'| == |cs| + (if FindConversation(cs, a, b).None? then 1 else 0)
      && k < |cs'|
      && SamePair(cs'[k].participants, Pair(a, b))
      && cs'[k].lastMessage == Some(msgId)
      && cs'[k].updatedAt == now
      && (k < |cs| ==> cs'[k].id == cs[k].id)
      && (k == |cs| ==> cs'[k].id == newId)
      && (forall i :: 0 <= i < |cs'| && i != k ==> cs'[i] == cs[i])
      && (UniquePairs(cs) ==> UniquePairs(cs'))
  {
    var cs' := Upserted(cs, a, b, msgId, now, newId);
    var k := UpsertIndex(cs, a, b);
    var P := Pair(a, b);
    if UniquePairs(cs) {
      forall i, j | 0 <= i < j < |cs'|
        ensures !SamePair(cs'[i].participants, cs'[j].participants)
      {
        assert cs'[i].participants == if i < |cs| then cs[i].participants else P;
        assert cs'[j].participants == if j < |cs| then cs[j].participants else P;
      }
    }
  }

  /** Sending a message keeps one conversation per pair, and afterwards the
      pair's conversation exists and points at the message just sent; a
      conversation is added exactly when the pair had none. The primed
      arguments are the store's fields after the send. */
  lemma {:induction false} SendKeepsStore(
    ms: seq<Message>, cs: seq<Conversation>, clock: nat, nextId: nat,
    caller: UserId, receiver: UserId, text: string,
    ms': seq<Message>, cs': seq<Conversation>, clock': nat, nextId': nat)
    requires StoreOk(ms, cs, clock, nextId)
    requires ms' == ms + [Message(nextId, caller, receiver, text, clock)]
    requires cs' == Upserted(cs, caller, receiver, nextId, clock + 1, nextId + 1)
    requires clock' == clock + 2 && nextId' == nextId + 2
    ensures StoreOk(ms', cs', clock', nextId')
    ensures UpsertIndex(cs, caller, receiver) < |cs'|
    ensures FindConversation(cs', caller, receiver) == Some(UpsertIndex(cs, caller, receiver))
    ensures cs'[UpsertIndex(cs, caller, receiver)].lastMessage == Some(nextId)
    ensures |cs'| == |cs| + (if FindConversation(cs, caller, receiver).None? then 1 else 0)
  {
    var m := Message(nextId, caller, receiver, text, clock);
    UpsertedShape(cs, caller, receiver, nextId, clock + 1, nextId + 1);
    SendKeepsMessages(ms, clock, nextId, m);
    SendKeepsNewest(ms, cs, m, caller, receiver, clock + 1, nextId + 1);
    UpsertKeepsIds(cs, clock, nextId, caller, receiver);
    FindConversationUnique(cs', caller, receiver, UpsertIndex(cs, caller, receiver));
  }

  /** The touched conversation keeps its id and the added one gets a fresh
      id, so conversation ids stay distinct. */
  lemma UpsertKeepsIds(cs: seq<Conversation>, clock: nat, nextId: nat, caller: UserId, receiver: UserId)
    requires forall i :: 0 <= i < |cs| ==> cs[i].id < nextId && cs[i].updatedAt < clock
    requires forall i, j :: 0 <= i < j < |cs| ==> cs[i].id != cs[j].id
    ensures var cs' := Upserted(cs, caller, receiver, nextId, clock + 1, nextId + 1);
      && (forall i :: 0 <= i < |cs'| ==> cs'[i].id < nextId + 2 && cs'[i].updatedAt < clock + 2)
      && (forall i, j :: 0 <= i < j < |cs'| ==> cs'[i].id != cs'[j].id)
  {
    var cs' := Upserted(cs, caller, receiver, nextId, clock + 1, nextId + 1);
    var k := UpsertIndex(cs, caller, receiver);
    UpsertedShape(cs, caller, receiver, nextId, clock + 1, nextId + 1);
    forall i | 0 <= i < |cs'| ensures cs'[i].id < nextId + 2 && cs'[i].updatedAt < clock + 2 {
      if i != k {
        assert cs'[i] == cs[i];
      }
    }
    forall i, j | 0 <= i < j < |cs'| ensures cs'[i].id != cs'[j].id {
      if i != k && j != k {
        assert cs'[i] == cs[i] && cs'[j] == cs[j];
      } else if i == k {
        assert cs'[j] == cs[j];
      } else {
        assert cs'[i] == cs[i];
      }
    }
  }

  lemma SendKeepsMessages(ms: seq<Message>, clock: nat, nextId: nat, m: Message)
    requires MessagesOk(ms, clock, nextId)
    requires m.id == nextId && m.createdAt == clock
    ensures MessagesOk(ms + [m], clock + 2, nextId + 2)
  {
    assert forall i :: 0 <= i < |ms| ==> (ms + [m])[i] == ms[i];
  }

  lemma SendKeepsNewest(ms: seq<Message>, cs: seq<Conversation>, m: Message,
                        caller: UserId, receiver: UserId, now: nat, newId: nat)
    requires UniquePairs(cs)
    requires forall i {:trigger PointsAtNewest(ms, cs[i])} :: 0 <= i < |cs| ==> PointsAtNewest(ms, cs[i])
    requires m.sender == caller && m.receiver == receiver
    ensures var cs' := Upserted(cs, caller, receiver, m.id, now, newId);
      forall i {:trigger PointsAtNewest(ms + [m], cs'[i])} :: 0 <= i < |cs'| ==> PointsAtNewest(ms + [m], cs'[i])
  {
    var cs' := Upserted(cs, caller, receiver, m.id, now, newId);
    var k := UpsertIndex(cs, caller, receiver);
    UpsertedShape(cs, caller, receiver, m.id, now, newId);
    forall i | 0 <= i < |cs'|
      ensures PointsAtNewest(ms + [m], cs'[i])
    {
      NewestAfterAppend(ms, m, cs'[i].participants);
      if i != k {
        assert PointsAtNewest(ms, cs[i]);
        assert !SamePair(cs[i].participants, Pair(caller, receiver));
      }
    }
  }

  /** The upsert as the route writes it, with the `$all` lookup. */
  function UpsertedAsWritten(cs: seq<Conversation>, a: UserId, b: UserId, msgId: nat, now: nat, newId: nat): (r: seq<Conversation>)
    ensures |r| == |cs| + (if FindConversationAsWritten(cs, a, b).None? then 1 else 0)
    ensures forall i :: 0 <= i < |cs| && !(cs[i].participants.Has(a) && cs[i].participants.Has(b)) ==> r[i] == cs[i]
  {
    match FindConversationAsWritten(cs, a, b)
    case None => cs + [Conversation(newId, Pair(a, b), Some(msgId), now)]
    case Some(i) => cs[i := Touch(cs[i], msgId, now)]
  }

  /** User 1 has written "hi" to user 2: one message, one conversation of
      the pair, and a consistent store. For a note from user 1 to themself the
      lookup as written finds that conversation; the exact lookup finds none. */
  lemma SelfNoteLookups(hi: Message, cs: seq<Conversation>)
    requires hi == Message(0, 1, 2, "hi", 0) && cs == [Conversation(1, Pair(1, 2), Some(0), 1)]
    ensures StoreOk([hi], cs, 2, 2)
    ensures FindConversationAsWritten(cs, 1, 1) == Some(0)
    ensures FindConversation(cs, 1, 1) == None
  {
    assert NewestIndex([hi], Pair(1, 2)) == Some(0);
    assert PointsAtNewest([hi], cs[0]);
  }

  /** User 1 then sends the note to themself. With the lookup as written the
      note lands in the conversation of users 1 and 2, which then points at a
      message that is not between its pair. */
  lemma SelfNoteHijacksConversation(hi: Message, cs: seq<Conversation>, note: Message)
    requires hi == Message(0, 1, 2, "hi", 0) && cs == [Conversation(1, Pair(1, 2), Some(0), 1)]
    requires note == Message(2, 1, 1, "note", 2)
    ensures UpsertedAsWritten(cs, 1, 1, note.id, 3, 3) == [Conversation(1, Pair(1, 2), Some(2), 3)]
    ensures !StoreOk([hi, note], UpsertedAsWritten(cs, 1, 1, note.id, 3, 3), 4, 4)
  {
    SelfNoteLookups(hi, cs);
    var c := Conversation(1, Pair(1, 2), Some(2), 3);
    var cs' := UpsertedAsWritten(cs, 1, 1, note.id, 3, 3);
    assert cs' == [c];
    assert NewestIndex([hi, note], Pair(1, 2)) == Some(0);
    assert !PointsAtNewest([hi, note], cs'[0]);
  }

  /** User 2's conversation list then shows user 1's note to themself as the
      last message of their conversation. */
  lemma SelfNoteShownToOther(hi: Message, note: Message, c: Conversation)
    requires hi == Message(0, 1, 2, "hi", 0) && note == Message(2, 1, 1, "note", 2)
    requires c == Conversation(1, Pair(1, 2), Some(2), 3)
    ensures ListConversations([c], [hi, note], 2) == Success([ConversationView(1, 1, Some(Summary("note", 2)))])
  {
    var ms := [hi, note];
    var key := (x: Conversation) => -(x.updatedAt as int);
    assert [c][1..] == [];
    assert Filter([c], (x: Conversation) => x.participants.Has(2)) == [c];
    assert SortBy([c], key) == [c];
    assert CallerConversations([c], 2) == [c];
    assert ms[0].id == 0 && ms[1].id == 2;
    assert MessageById(ms, 2) == Some(1);
    assert LastSummary(ms, c) == Some(Summary("note", 2));
    var r := FormatAll([c], 2, ms);
    assert Other(c.participants, 2) == Some(1);
    assert r.Success? && |r.value| == 1;
    assert r.value[0] == ConversationView(1, 1, Some(Summary("note", 2)));
    assert r.value == [ConversationView(1, 1, Some(Summary("note", 2)))];
    assert ListConversations([c], ms, 2) == r;
  }

  /** The exact lookup files the same note under a new conversation of user
      1 with themself, and the store stays consistent. */
  lemma SelfNoteCorrected(hi: Message, cs: seq<Conversation>, note: Message)
    requires hi == Message(0, 1, 2, "hi", 0) && cs == [Conversation(1, Pair(1, 2), Some(0), 1)]
    requires note == Message(2, 1, 1, "note", 2)
    ensures Upserted(cs, 1, 1, note.id, 3, 3) == cs + [Conversation(3, Pair(1, 1), Some(2), 3)]
    ensures StoreOk([hi, note], Upserted(cs, 1, 1, note.id, 3, 3), 4, 4)
  {
    SelfNoteLookups(hi, cs);
    assert [hi] + [note] == [hi, note];
    SendKeepsStore([hi], cs, 2, 2, 1, 1, "note", [hi, note], Upserted(cs, 1, 1, note.id, 3, 3), 4, 4);
  }

  /** The price of the exact lookup: a message to oneself always leaves a
      conversation of the sender with themself, so from then on the
      sender's conversation list fails with a 500. */
  lemma SelfSendBreaksList(ms: seq<Message>, cs: seq<Conversation>, caller: UserId, msgId: nat, now: nat, newId: nat)
    ensures ListConversations(Upserted(cs, caller, caller, msgId, now, newId), ms, caller).Failure?
  {
    var cs' := Upserted(cs, caller, caller, msgId, now, newId);
    var k := UpsertIndex(cs, caller, caller);
    UpsertedShape(cs, caller, caller, msgId, now, newId);
    assert cs'[k].participants == Pair(caller, caller);
    ListConversationsFails(cs', ms, caller);
  }

  /** As written, a message to oneself adds a conversation of the sender
      with themself only when the sender has no conversation yet; otherwise
      it touches one the sender is in, and the sender's list fails
      afterwards exactly when it failed before. */
  lemma SelfSendAsWrittenList(ms: seq<Message>, cs: seq<Conversation>, caller: UserId, msgId: nat, now: nat, newId: nat)
    ensures (forall i :: 0 <= i < |cs| ==> !cs[i].participants.Has(caller)) ==>
      ListConversations(UpsertedAsWritten(cs, caller, caller, msgId, now, newId), ms, caller).Failure?
    ensures (exists i :: 0 <= i < |cs| && cs[i].participants.Has(caller)) ==>
      (ListConversations(UpsertedAsWritten(cs, caller, caller, msgId, now, newId), ms, caller).Failure?
       <==> ListConversations(cs, ms, caller).Failure?)
  {
    var cs' := UpsertedAsWritten(cs, caller, caller, msgId, now, newId);
    ListConversationsFails(cs', ms, caller);
    ListConversationsFails(cs, ms, caller);
    match FindConversationAsWritten(cs, caller, caller)
    case None =>
      assert cs'[|cs|].participants == Pair(caller, caller);
    case Some(k) =>
      assert |cs'| == |cs|;
      assert forall i :: 0 <= i < |cs| ==> cs'[i].participants == cs[i].participants;
  }

  // ---------------------------------------------------------------------
  // GET /:conversationId : the messages of one conversation

  /** `Conversation.findById`. */
  function IndexOfConversation(cs: seq<Conversation>, id: nat): (r: Option<nat>)
    ensures r.Some? ==> r.value < |cs| && cs[r.value].id == id
    ensures r.None? <==> forall j :: 0 <= j < |cs| ==> cs[j].id != id
  {
    FirstWhere(cs, (c: Conversation) => c.id == id)
  }

  /** `.sort({ createdAt: 1 })`. */
  function OldestFirst(ms: seq<Message>): seq<Message> {
    SortBy(ms, (m: Message) => m.createdAt as int)
  }

  function ListMessages(cs: seq<Conversation>, ms: seq<Message>, conversationId: nat, caller: UserId): (r: Result<seq<Message>>)
    ensures r.Failure? ==> r.error == NotFound || r.error == Forbidden
    ensures r.Success? ==> |r.value| <= |ms|
  {
    match IndexOfConversation(cs, conversationId)
    case None => Failure(NotFound)
    case Some(i) =>
      var p := cs[i].participants;
      if !p.Has(caller) then Failure(Forbidden)
      else Success(OldestFirst(Filter(ms, (m: Message) => Between(m, p))))
  }

  /** 404 exactly when no conversation has the id; 403 exactly when it
      exists and the caller is not one of its participants. */
  lemma ListMessagesErrors(cs: seq<Conversation>, ms: seq<Message>, conversationId: nat, caller: UserId)
    ensures ListMessages(cs, ms, conversationId, caller) == Failure(NotFound)
      <==> forall j :: 0 <= j < |cs| ==> cs[j].id != conversationId
    ensures ListMessages(cs, ms, conversationId, caller) == Failure(Forbidden)
      <==> IndexOfConversation(cs, conversationId).Some?
           && !cs[IndexOfConversation(cs, conversationId).value].participants.Has(caller)
    ensures ListMessages(cs, ms, conversationId, caller).Failure? ==>
      ListMessages(cs, ms, conversationId, caller).error in {NotFound, Forbidden}
  {
  }

  /** The listed messages are exactly the stored messages between the two
      participants, in either direction, each as often as it is stored,
      oldest first. */
  lemma ListMessagesContents(cs: seq<Conversation>, ms: seq<Message>, conversationId: nat, caller: UserId)
    requires ListMessages(cs, ms, conversationId, caller).Success?
    ensures var r := ListMessages(cs, ms, conversationId, caller).value;
      var p := cs[IndexOfConversation(cs, conversationId).value].participants;
      && p.Has(caller)
      && (forall i :: 0 <= i < |r| ==> r[i] in ms && Between(r[i], p))
      && (forall j :: 0 <= j < |ms| && Between(ms[j], p) ==> ms[j] in r)
      && (forall i, j :: 0 <= i < j < |r| ==> r[i].createdAt <= r[j].createdAt)
      && (forall m :: multiset(r)[m] == if Between(m, p) then multiset(ms)[m] else 0)
  {
    ListMessagesCounts(cs, ms, conversationId, caller);
    var p := cs[IndexOfConversation(cs, conversationId).value].participants;
    var f := Filter(ms, (m: Message) => Between(m, p));
    var r := OldestFirst(f);
    SameMultisetSameMembers(f, r);
    var key := (m: Message) => m.createdAt as int;
    assert SortedBy(r, key);
    forall i, j | 0 <= i < j < |r| ensures r[i].createdAt <= r[j].createdAt {
      assert key(r[i]) <= key(r[j]);
    }
  }

  /** Each message between the participants is listed exactly as many times
      as it is stored, and no other message is listed. */
  lemma ListMessagesCounts(cs: seq<Conversation>, ms: seq<Message>, conversationId: nat, caller: UserId)
    requires ListMessages(cs, ms, conversationId, caller).Success?
    ensures var r := ListMessages(cs, ms, conversationId, caller).value;
      var p := cs[IndexOfConversation(cs, conversationId).value].participants;
      forall m :: multiset(r)[m] == if Between(m, p) then multiset(ms)[m] else 0
  {
    var p := cs[IndexOfConversation(cs, conversationId).value].participants;
    var f := Filter(ms, (m: Message) => Between(m, p));
    FilterCounts(ms, (m: Message) => Between(m, p));
    assert multiset(OldestFirst(f)) == multiset(f);
  }

  // ---------------------------------------------------------------------
  // GET /conversations : the caller's conversations

  /** `participants.find(p => p !== caller)`. */
  function Other(p: Pair, caller: UserId): (r: Option<UserId>)
    ensures r.Some? ==> r.value != caller && p.Has(r.value)
    ensures r.None? <==> p == Pair(caller, caller)
    ensures r.Some? && p.Has(caller) ==> SamePair(p, Pair(caller, r.value))
  {
    if p.first != caller then Some(p.first)
    else if p.second != caller then Some(p.second)
    else None
  }

  /** `Message.findById`, which `populate('lastMessage')` performs. */
  function MessageById(ms: seq<Message>, id: nat): (r: Option<nat>)
    ensures r.Some? ==> r.value < |ms| && ms[r.value].id == id
    ensures r.None? <==> forall j :: 0 <= j < |ms| ==> ms[j].id != id
  {
    FirstWhere(ms, (m: Message) => m.id == id)
  }

  /** The summary of the populated `lastMessage`, or null. */
  function LastSummary(ms: seq<Message>, c: Conversation): Option<Summary> {
    match c.lastMessage
    case None => None
    case Some(id) =>
      match MessageById(ms, id)
      case None => None
      case Some(k) => Some(Summary(ms[k].text, ms[k].createdAt))
  }

  /** `Conversation.find({ participants: caller }).sort({ updatedAt: -1 })`. */
  function CallerConversations(cs: seq<Conversation>, caller: UserId): (r: seq<Conversation>)
    ensures |r| <= |cs|
  {
    SortBy(Filter(cs, (c: Conversation) => c.participants.Has(caller)), (c: Conversation) => -(c.updatedAt as int))
  }

  /** The `map` that formats each conversation; it throws, failing the whole
      request, at a conversation with no participant other than the caller. */
  function FormatAll(cs: seq<Conversation>, caller: UserId, ms: seq<Message>): (r: Result<seq<ConversationView>>)
    ensures r.Failure? <==> exists i :: 0 <= i < |cs| && Other(cs[i].participants, caller).None?
    ensures r.Failure? ==> r.error == ServerError
    ensures r.Success? ==> |r.value| == |cs|
    ensures r.Success? ==> forall i :: 0 <= i < |cs| ==>
      && r.value[i].id == cs[i].id
      && Other(cs[i].participants, caller) == Some(r.value[i].other)
      && r.value[i].lastMessage == LastSummary(ms, cs[i])
  {
    if cs == [] then Success([])
    else
      match Other(cs[0].participants, caller)
      case None => Failure(ServerError)
      case Some(o) =>
        match FormatAll(cs[1..], caller, ms)
        case Failure(e) =>
          assert forall i :: 0 <= i < |cs| - 1 ==> cs[1..][i] == cs[i + 1];
          Failure(e)
        case Success(vs) =>
          assert forall i :: 0 < i < |cs| ==> cs[i] == cs[1..][i - 1];
          Success([ConversationView(cs[0].id, o, LastSummary(ms, cs[0]))] + vs)
  }

  function ListConversations(cs: seq<Conversation>, ms: seq<Message>, caller: UserId): (r: Result<seq<ConversationView>>)
    ensures r.Failure? ==> r.error == ServerError
    ensures r.Success? ==> |r.value| <= |cs|
  {
    FormatAll(CallerConversations(cs, caller), caller, ms)
  }

  /** The conversations listed are exactly those the caller takes part in,
      each as often as it is stored, most recently updated first. */
  lemma CallerConversationsContents(cs: seq<Conversation>, caller: UserId)
    ensures var r := CallerConversations(cs, caller);
      && (forall i :: 0 <= i < |r| ==> r[i] in cs && r[i].participants.Has(caller))
      && (forall j :: 0 <= j < |cs| && cs[j].participants.Has(caller) ==> cs[j] in r)
      && (forall i, j :: 0 <= i < j < |r| ==> r[i].updatedAt >= r[j].updatedAt)
      && (forall c :: multiset(r)[c] == if c.participants.Has(caller) then multiset(cs)[c] else 0)
  {
    CallerConversationsCounts(cs, caller);
    var f := Filter(cs, (c: Conversation) => c.participants.Has(caller));
    var r := CallerConversations(cs, caller);
    SameMultisetSameMembers(f, r);
    var key := (c: Conversation) => -(c.updatedAt as int);
    assert SortedBy(r, key);
    forall i, j | 0 <= i < j < |r| ensures r[i].updatedAt >= r[j].updatedAt {
      assert key(r[i]) <= key(r[j]);
    }
    forall i | 0 <= i < |r| ensures r[i].participants.Has(caller) {
      var k :| 0 <= k < |f| && f[k] == r[i];
    }
  }

  /** Each conversation of the caller is listed exactly as many times as it
      is stored, and no other conversation is listed. */
  lemma CallerConversationsCounts(cs: seq<Conversation>, caller: UserId)
    ensures var r := CallerConversations(cs, caller);
      forall c :: multiset(r)[c] == if c.participants.Has(caller) then multiset(cs)[c] else 0
  {
    var f := Filter(cs, (c: Conversation) => c.participants.Has(caller));
    FilterCounts(cs, (c: Conversation) => c.participants.Has(caller));
    assert multiset(CallerConversations(cs, caller)) == multiset(f);
  }

  /** The listing fails exactly when the caller has a conversation with
      themself, where no other participant can be found. */
  lemma ListConversationsFails(cs: seq<Conversation>, ms: seq<Message>, caller: UserId)
    ensures ListConversations(cs, ms, caller).Failure?
      <==> exists j :: 0 <= j < |cs| && cs[j].participants == Pair(caller, caller)
  {
    var r := CallerConversations(cs, caller);
    assert && (forall i :: 0 <= i < |r| ==> r[i] in cs)
           && (forall j :: 0 <= j < |cs| && cs[j].participants.Has(caller) ==> cs[j] in r) by {
      CallerConversationsContents(cs, caller);
    }
    if exists j :: 0 <= j < |cs| && cs[j].participants == Pair(caller, caller) {
      var j :| 0 <= j < |cs| && cs[j].participants == Pair(caller, caller);
      var i :| 0 <= i < |r| && r[i] == cs[j];
      assert Other(r[i].participants, caller).None?;
    }
    if ListConversations(cs, ms, caller).Failure? {
      var i :| 0 <= i < |r| && Other(r[i].participants, caller).None?;
      var j :| 0 <= j < |cs| && cs[j] == r[i];
      assert cs[j].participants == Pair(caller, caller);
    }
  }

  /** In a consistent store each listed conversation names the other user
      and shows the newest message exchanged between the two. */
  lemma ListedConversationsShowNewest(ms: seq<Message>, cs: seq<Conversation>, clock: nat, nextId: nat, caller: UserId)
    requires StoreOk(ms, cs, clock, nextId)
    requires ListConversations(cs, ms, caller).Success?
    ensures var views := ListConversations(cs, ms, caller).value;
      forall i :: 0 <= i < |views| ==>
        && views[i].other != caller
        && views[i].lastMessage == NewestSummary(ms, Pair(caller, views[i].other))
  {
    var r := CallerConversations(cs, caller);
    var views := ListConversations(cs, ms, caller).value;
    CallerConversationsContents(cs, caller);
    forall i | 0 <= i < |views|
      ensures views[i].lastMessage == NewestSummary(ms, Pair(caller, views[i].other))
    {
      var j :| 0 <= j < |cs| && cs[j] == r[i];
      assert PointsAtNewest(ms, cs[j]);
      StoredConversationSummary(ms, clock, nextId, r[i], caller, views[i].other);
    }
  }

  /** A stored conversation's populated last message is the newest message
      between the caller and the other participant. */
  lemma StoredConversationSummary(ms: seq<Message>, clock: nat, nextId: nat, c: Conversation, caller: UserId, other: UserId)
    requires MessagesOk(ms, clock, nextId)
    requires PointsAtNewest(ms, c)
    requires c.participants.Has(caller) && Other(c.participants, caller) == Some(other)
    ensures LastSummary(ms, c) == NewestSummary(ms, Pair(caller, other))
  {
    NewestIndexSamePair(ms, c.participants, Pair(caller, other));
    var n := NewestIndex(ms, c.participants);
    if n.Some? {
      var k := n.value;
      var found := MessageById(ms, ms[k].id);
      assert !(found.value < k) && !(k < found.value);
    }
  }

  // ---------------------------------------------------------------------
  // The store

  class MessageStore {
    var messages: seq<Message>
    var conversations: seq<Conversation>
    var clock: nat
    var nextId: nat

    ghost predicate Valid()
      reads this
    {
      StoreOk(messages, conversations, clock, nextId)
    }

    constructor ()
      ensures Valid() && messages == [] && conversations == []
    {
      messages, conversations, clock, nextId := [], [], 0, 0;
    }

    /** POST /api/messages: the message is appended, then the pair's
        conversation is touched or created. */
    method Send(caller: UserId, receiverId: UserId, text: string) returns (m: Message)
      requires Valid()
      modifies this
      ensures Valid()
      ensures m == Message(old(nextId), caller, receiverId, text, old(clock))
      ensures messages == old(messages) + [m]
      ensures conversations == Upserted(old(conversations), caller, receiverId, m.id, old(clock) + 1, old(nextId) + 1)
      ensures FindConversation(conversations, caller, receiverId) == Some(UpsertIndex(old(conversations), caller, receiverId))
      ensures conversations[UpsertIndex(old(conversations), caller, receiverId)].lastMessage == Some(m.id)
      ensures clock == old(clock) + 2 && nextId == old(nextId) + 2
    {
      ghost var ms0, cs0, clock0, id0 := messages, conversations, clock, nextId;
      m := Message(nextId, caller, receiverId, text, clock);
      messages := messages + [m];
      clock := clock + 1;
      var found := FindConversation(conversations, caller, receiverId);
      if found.None? {
        var conversation := Conversation(nextId + 1, Pair(caller, receiverId), Some(m.id), clock);
        conversations := conversations + [conversation];
      } else {
        var i := found.value;
        var conversation := conversations[i];
        conversation := conversation.(lastMessage := Some(m.id));
        conversation := conversation.(updatedAt := clock);
        conversations := conversations[i := conversation];
      }
      clock := clock + 1;
      nextId := nextId + 2;
      SendKeepsStore(ms0, cs0, clock0, id0, caller, receiverId, text, messages, conversations, clock, nextId);
    }

  }
}
