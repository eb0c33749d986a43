# Social app back end: posts and direct messages

A Dafny model of the two stateful route modules of the back end:

- `backend/routes/posts.js` — the paginated newest-first feed, post creation,
  the like/unlike toggle and comment append;
- `backend/routes/messages.js` — sending a direct message (append the message,
  then find or create the conversation of the two users), listing the messages
  of one conversation, and listing a user's conversations.

The document store is replaced by in-memory sequences. `Posts.PostStore` holds
the posts; `Messages.MessageStore` holds the messages and the conversations.
Both are classes whose methods update their fields in place, as the handlers do
to the loaded documents before `save`. Object ids and timestamps are natural
numbers drawn from two counters: `clock` advances on every write, and `nextId`
on every write that creates a post, comment, message or conversation. The read-only routes (the feed, the message list and the conversation
list) are pure functions over the stored sequences. The store's queries are
modelled in `collections.dfy`: `FirstWhere` is `findOne`/`findById`, `Filter` a
`find` with a condition, and `SortBy` a stable sort on an integer key. A
negated key gives `-1` order.

Each store keeps an invariant, `Valid()`, that every method preserves:

- posts: ids are unique; `likes` equals the length of `likedBy`; `likedBy` has no duplicates;
  comment ids are unique within a post;
- messages: messages are stored in creation order with unique ids; there is at
  most one conversation per unordered pair of users; each conversation's
  `lastMessage` is the newest message between its two users.

A conversation whose two participants are both the caller has no "other
participant": the `find` at `backend/routes/messages.js:21-23` yields nothing,
the `map` at lines 19-28 throws on it, and the request fails with a 500. The
model returns `Failure(ServerError)` for the whole list in that case.

The model's `Messages.MessageStore.Send` files a message under the conversation
of exactly its two users. The route's lookup differs from that only when a user
writes to themself (see "## Findings"); the route's own lookup is modelled as
`Messages.FindConversationAsWritten` and `Messages.UpsertedAsWritten`.

## Model

| member | source | states |
|---|---|---|
| Collections.FirstWhere | backend/routes/posts.js:53 | the index found satisfies the query and no earlier element does; None exactly when no element satisfies it |
| Collections.Filter | backend/routes/messages.js:58-63 | the result is no longer than the input, holds only elements of the input that satisfy the condition, and every such element of the input; multiplicities are stated by `Collections.FilterCounts` |
| Collections.FilterCounts | backend/routes/messages.js:58-63 | each value occurs in the result as often as in the input when it satisfies the condition, and never otherwise |
| Collections.SortBy | backend/routes/messages.js:64 | the result is sorted by the key and is a permutation of the input (same multiset) |
| Collections.Insert | backend/routes/messages.js:64 | inserting adds exactly one occurrence of the element: the length grows by one and the multiset gains the element |
| Collections.InsertKeepsSorted | backend/routes/messages.js:64 | inserting into a sorted sequence keeps it sorted |
| Collections.SameMultisetSameMembers | backend/routes/posts.js:13-14 | a sorted sequence has the length and exactly the members of the unsorted one |
| Posts.Feed | backend/routes/posts.js:7-25 | the feed fails, with a server error, exactly when the offset is negative; a page has at most the page size and at most the number of stored posts; its contents are stated by `Posts.FeedPage` |
| Posts.OrDefault | backend/routes/posts.js:9-10 | the parsed query value or its fallback: the result is the fallback or the parsed value, and a parsed non-zero value always wins; the route-level defaults are stated by `Posts.FeedDefaultPage` and `Posts.FeedDefaultLimit` |
| Posts.Offset | backend/routes/posts.js:11 | the skip `(page - 1) * limit`; its value and sign are stated by `Posts.FeedDefaultPage`, `Posts.FeedDefaultLimit` and `Posts.FeedFailsOnNegativeOffset` |
| Posts.PageSize | backend/routes/posts.js:16 | the number of posts a page may hold; 10 by default by `Posts.FeedDefaultLimit`, and the bound on a page's length by `Posts.Feed` and `Posts.FeedPage` |
| Posts.NewestFirst | backend/routes/posts.js:14 | `.sort({ createdAt: -1 })`; that creation times never increase along it is stated by `Posts.NewestFirstOrder`, and that it holds exactly the stored posts by `Collections.SortBy` and `Posts.FeedPage` |
| Posts.Window | backend/routes/posts.js:15-16 | `.skip(skip).limit(limit)`; its length and elements are stated by `Posts.WindowOf`, and adjacent windows joining up by `Posts.WindowsConcat` |
| Posts.FeedDefaultPage | backend/routes/posts.js:9 | a missing, non-numeric or zero page means page 1 whatever the limit: offset 0 and the same feed as page 1 with that limit |
| Posts.FeedDefaultLimit | backend/routes/posts.js:10 | a missing, non-numeric or zero limit means 10 whatever the page: page size 10, offset `(page - 1) * 10`, and the same feed as that page with limit 10 |
| Posts.FeedFailsOnNegativeOffset | backend/routes/posts.js:9-16 | the feed fails, with a server error, exactly when the offset `(page - 1) * limit` is negative; with page and limit at least 1 it succeeds with that offset |
| Posts.FeedPage | backend/routes/posts.js:11-16 | the offset is not negative and the page is `Posts.IsPage` at that offset: at most `limit` posts, exactly `min(limit, count - skip)` of them and none once `skip` reaches the count; post `i` of the page is post `skip + i` of the newest-first order; creation times never increase along the page; every listed post is stored |
| Posts.NewestFirstWindow | backend/routes/posts.js:13-16 | any skip/limit window of the newest-first order satisfies `Posts.IsPage`: that length, those elements, non-increasing creation times and only stored posts |
| Posts.NewestFirstOrder | backend/routes/posts.js:14 | the newest-first order never puts an older post before a newer one |
| Posts.ConsecutivePages | backend/routes/posts.js:9-16 | pages `k` and `k + 1` both succeed and together are the window of size `2 * limit` at page `k`'s offset: no post is skipped or repeated between them |
| Posts.WindowsConcat | backend/routes/posts.js:15-16 | two adjacent skip/limit windows make up the window of their combined size |
| Posts.IndexOf | backend/routes/posts.js:60 | -1 exactly when the caller is not in `likedBy`; otherwise the first position of the caller |
| Posts.ToggleEffect | backend/routes/posts.js:60-70 | a caller who had not liked is appended and `likes` rises by one; a caller who had liked loses exactly one entry of `likedBy` and `likes` falls by one; nothing else about the post changes |
| Posts.Toggled | backend/routes/posts.js:60-70 | `likes` falls by one when the caller had liked and rises by one otherwise, and `likedBy` shrinks or grows by one to match; that nothing else changes, and the entries themselves, are stated by `Posts.ToggleEffect` |
| Posts.SpliceKeepsNoDup | backend/routes/posts.js:69 | removing one entry from a duplicate-free `likedBy` keeps it duplicate-free and removes that user |
| Posts.ToggleKeepsConsistency | backend/routes/posts.js:60-72 | `likes` minus the length of `likedBy` is unchanged; a duplicate-free `likedBy` stays duplicate-free, and the caller is in it afterwards exactly when they were not before |
| Posts.ToggleTwice | backend/routes/posts.js:60-70 | toggling twice after a like restores the post exactly; with a duplicate-free `likedBy` it restores `likes` and the members of `likedBy` |
| Posts.LikeThenUnlike | backend/routes/posts.js:62-70 | like followed by unlike by the same caller restores the post |
| Posts.UnlikeThenLike | backend/routes/posts.js:62-70 | unlike followed by like restores `likes` and the multiset of `likedBy` |
| Posts.IndexOfPost | backend/routes/posts.js:53-57 | the position found holds the post with that id; None exactly when no post has it |
| Posts.LikeKeepsStore | backend/routes/posts.js:53-72 | a toggle on a stored post keeps every store invariant, in particular `likes` equals the length of `likedBy` |
| Posts.CreateKeepsStore | backend/routes/posts.js:32-38 | a new post with a fresh id, no likes and no comments keeps every store invariant |
| Posts.CommentKeepsStore | backend/routes/posts.js:94-100 | appending a comment with a fresh id keeps every store invariant |
| Posts.PostStore.Create | backend/routes/posts.js:32-38 | exactly one post owned by the caller with the given content and image, no likes and no comments, is appended; existing posts are untouched; the invariant is kept |
| Posts.PostStore.Like | backend/routes/posts.js:53-77 | NotFound exactly when no post has the id, with the store unchanged; otherwise only that post changes, by the toggle, and the reply carries the new count and `liked` true exactly when the caller had not liked; the invariant is kept |
| Posts.PostStore.AddComment | backend/routes/posts.js:88-103 | NotFound exactly when no post has the id, with the store unchanged; otherwise one comment with the caller and text is appended to that post only, and the reply is the post's new last comment; the invariant is kept |
| Messages.NewestIndex | backend/routes/messages.js:98-102 | the index found is a message between the pair and no later message is; None exactly when the pair has exchanged no message |
| Messages.NewestIndexIsNewest | backend/routes/messages.js:98-103 | in a store kept in creation order, no message between the pair was created after the one found |
| Messages.NewestIndexSamePair | backend/routes/messages.js:58-62 | the newest message of a pair does not depend on the order its two users are written in |
| Messages.NewestAfterAppend | backend/routes/messages.js:81-87 | an appended message becomes the newest of its own pair and changes the newest message of no other pair |
| Messages.FindConversation | backend/routes/messages.js:90-92 | the conversation found has exactly the pair `{caller, receiver}`; None exactly when no conversation does |
| Messages.FindConversationAsWritten | backend/routes/messages.js:90-92 | the conversation found contains both users (`$all`); None exactly when none does |
| Messages.AsWrittenAgreesForTwoUsers | backend/routes/messages.js:90-92 | between two different users the `$all` lookup and the exact-pair lookup give the same answer |
| Messages.FindConversationUnique | backend/routes/messages.js:90-92 | with one conversation per pair, the lookup finds the pair's only conversation |
| Messages.Upserted | backend/routes/messages.js:90-104 | the corrected upsert adds one conversation exactly when the pair had none and leaves every conversation of another pair as it was; the pair's slot is stated by `Messages.UpsertedShape` |
| Messages.Touch | backend/routes/messages.js:102-103 | the update of an existing conversation; that only `lastMessage` and `updatedAt` change, and the id and participants stay, is stated by `Messages.UpsertedShape` |
| Messages.UpsertedShape | backend/routes/messages.js:94-104 | the upsert changes only the pair's slot: a new `[caller, receiver]` conversation with a fresh id when none existed, otherwise the same conversation with new `lastMessage` and `updatedAt`; one conversation per pair is kept |
| Messages.SendKeepsStore | backend/routes/messages.js:78-106 | for the fields a send leaves behind: one conversation per pair and every conversation pointing at its newest message are kept; afterwards the pair's conversation is found and points at the new message; a conversation is added exactly when the pair had none |
| Messages.SendKeepsMessages | backend/routes/messages.js:81-87 | the new message keeps messages in creation order with unique ids |
| Messages.SendKeepsNewest | backend/routes/messages.js:98-106 | after the upsert every conversation still points at the newest message between its pair |
| Messages.UpsertKeepsIds | backend/routes/messages.js:94-106 | conversation ids stay unique and below the id counter after the upsert |
| Messages.UpsertedAsWritten | backend/routes/messages.js:90-104 | the upsert as the route writes it adds one conversation exactly when no conversation contains both users and leaves every conversation that does not contain both as it was |
| Messages.SelfNoteLookups | backend/routes/messages.js:90-92 | with a stored conversation of users 1 and 2, a lookup for user 1 with themself finds it as written and finds nothing by exact pair |
| Messages.SelfNoteHijacksConversation | backend/routes/messages.js:90-104 | as written, user 1's note to themself becomes the last message of the conversation of users 1 and 2, breaking the store invariant |
| Messages.SelfNoteShownToOther | backend/routes/messages.js:11-33 | after that, user 2's conversation list shows user 1's note to themself as the last message |
| Messages.SelfNoteCorrected | backend/routes/messages.js:90-106 | with the exact-pair lookup the note goes to a new conversation of user 1 with themself and the store invariant holds (the invariant allows a conversation of a user with themself) |
| Messages.SelfSendBreaksList | backend/routes/messages.js:90-104 | with the exact-pair lookup every message to oneself leaves a conversation of the sender with themself, so the sender's conversation list fails with a 500 from then on |
| Messages.SelfSendAsWrittenList | backend/routes/messages.js:90-104 | as written, a message to oneself makes the sender's conversation list fail when the sender had no conversation yet; otherwise the list fails afterwards exactly when it failed before |
| Messages.MessageStore.Send | backend/routes/messages.js:78-106 | exactly one message from the caller to the receiver with the given text is appended; the pair's conversation is created with that message or updated to it, and is then the one the lookup finds; the invariant is kept |
| Messages.IndexOfConversation | backend/routes/messages.js:46-50 | the position found holds the conversation with that id; None exactly when none has it |
| Messages.ListMessages | backend/routes/messages.js:44-73 | fails only with NotFound or Forbidden, and lists at most the stored messages; errors and contents are stated by `Messages.ListMessagesErrors`, `Messages.ListMessagesContents` and `Messages.ListMessagesCounts` |
| Messages.ListMessagesErrors | backend/routes/messages.js:46-55 | NotFound exactly when no conversation has the id; Forbidden exactly when it exists but the caller is not a participant; no other error |
| Messages.OldestFirst | backend/routes/messages.js:64 | `.sort({ createdAt: 1 })`; that the listed messages are in ascending creation order, each as often as stored, is stated by `Messages.ListMessagesContents` |
| Messages.ListMessagesContents | backend/routes/messages.js:58-64 | the caller is a participant; the listed messages are the stored messages between the two participants in either direction, and every such message is listed as many times as it is stored, oldest first; no other message is listed |
| Messages.ListMessagesCounts | backend/routes/messages.js:58-63 | each message between the two participants is listed exactly as many times as it is stored, and no other message is listed |
| Messages.Other | backend/routes/messages.js:21-23 | the participant found is not the caller and belongs to the conversation; None exactly when both participants are the caller; for the caller's conversation it is the other user of the pair |
| Messages.MessageById | backend/routes/messages.js:16 | the position found holds the message with that id; None exactly when none has it |
| Messages.LastSummary | backend/routes/messages.js:29-32 | the populated `lastMessage` as `{ text, createdAt }`, or null; `Messages.FormatAll` states that each view carries it, and `Messages.StoredConversationSummary` that in a consistent store it is the newest message between the pair |
| Messages.FormatAll | backend/routes/messages.js:19-34 | fails with a server error exactly when some conversation has no participant other than the caller; otherwise one view per conversation, in order, with its id, the other participant and the last message's text and time, or null |
| Messages.CallerConversations | backend/routes/messages.js:11-14 | the query of the caller's conversations returns at most the stored conversations; its contents are stated by `Messages.CallerConversationsContents` and `Messages.CallerConversationsCounts` |
| Messages.CallerConversationsContents | backend/routes/messages.js:11-14 | the listed conversations are stored conversations containing the caller, every stored conversation containing the caller is listed as many times as it is stored, most recently updated first; no other conversation is listed |
| Messages.CallerConversationsCounts | backend/routes/messages.js:11-13 | each conversation containing the caller is listed exactly as many times as it is stored, and no other conversation is listed |
| Messages.ListConversations | backend/routes/messages.js:8-41 | fails only with a server error and lists at most the stored conversations; failure, order and contents are stated by `Messages.ListConversationsFails`, `Messages.CallerConversationsContents` and `Messages.ListedConversationsShowNewest` |
| Messages.ListConversationsFails | backend/routes/messages.js:11-28 | the list fails exactly when the caller has a conversation with themself |
| Messages.ListedConversationsShowNewest | backend/routes/messages.js:11-33 | in a consistent store each listed conversation shows a user other than the caller and the newest message between the caller and that user |
| Messages.StoredConversationSummary | backend/routes/messages.js:29-32 | the populated last message of a consistent conversation is the newest message between the caller and the other participant |

## Left out

- `populate` of names and avatars is not modelled: views and replies carry user ids. A deleted user whose `populate` comes back null, which throws in the conversation list, is not modelled.
- Posts.PostStore.AddComment: the `User.findById` lookup for the reply's author (`backend/routes/posts.js:106-117`) is not modelled; the reply is the stored comment, which carries the caller's id.
- The Mongoose model files (`models/Post`, `models/Messages`, `models/Conversation`) are not part of this model. Their defaults are taken to be `likes` 0, empty `likedBy` and `comments`, and timestamps set on creation.
- Query strings are taken after `parseInt`: a page or limit is `None` for a missing or non-numeric value and `Some(n)` otherwise; the parsing itself is not modelled.
- A negative `limit` is read as its absolute value, as the store treats a negative limit; the single-batch size cap that goes with it is not modelled.
- Storage failures, and the 500 reply of each `catch` block for them, are not modelled. The only 500s modelled are a negative skip in the feed and a conversation with no participant other than the caller in the conversation list.
- Real dates are not modelled: `Date.now()` and the automatic timestamps are the `clock` counter, which every write advances.
- Real object ids are not modelled: ids come from the `nextId` counter.
- Messages.MessageStore.Send: uses the corrected exact-pair lookup `Messages.FindConversation` instead of the route's `$all` lookup (`backend/routes/messages.js:90-92`). `Messages.AsWrittenAgreesForTwoUsers` proves the two equal whenever `caller != receiverId`, so `Send` differs from the route only when a user messages themself; that case is recorded under "## Findings", and the route's behaviour there is modelled by `Messages.UpsertedAsWritten`. The correction has its own cost: a message to oneself always files under a conversation of the sender with themself, which makes the sender's conversation list fail with a 500 from then on (`Messages.SelfSendBreaksList`); the route as written does that only when the sender had no conversation yet (`Messages.SelfSendAsWrittenList`). Refusing messages to oneself would avoid both, but the route does not refuse them, so the model does not either.
- Messages.MessageStore.Send: reserves two ids and two clock ticks per message, one pair for the message and one for a possible new conversation, even when no conversation is created.
- Posts.FeedPage, Posts.ConsecutivePages, Posts.NewestFirstWindow, Messages.CallerConversationsContents, Messages.ListMessagesContents: `Collections.SortBy` is a stable sort, so posts, conversations or messages with equal `createdAt` or `updatedAt` keep their stored order. The store leaves the order of such ties unspecified, and it may differ between the queries for two pages, so with ties a page may repeat or skip a post. `Date.now()` has millisecond resolution, so the route can produce ties; the model's `clock` advances on every write, so the methods of `Posts.PostStore` and `Messages.MessageStore` never give two writes the same time, but the store invariants do not state that times are distinct.
- Races between concurrent requests are not modelled: handlers run one at a time to completion.
- Authentication (`req.user`), the Express and socket.io wiring in `server.js` and `backend/server.js`, bcrypt hashing and the React front end are not part of this model.
- Posts.ToggleTwice: an unlike followed by a like restores the members of `likedBy` (as a multiset) but not their order, because the caller is appended at the end; the counter and members are restored only for a duplicate-free `likedBy`, which the store invariant guarantees.

## Findings

| source | as written | input that shows it | evidently intended | confidence | as-written member | corrected member |
|---|---|---|---|---|---|---|
| backend/routes/messages.js:90-92 | the conversation lookup `{ participants: { $all: [caller, receiverId] } }` with `receiverId == caller` matches any conversation the caller is in | user 1 sends "hi" to user 2, then sends "note" to user 1: the conversation of users 1 and 2 gets the note as its last message, and user 2's conversation list shows user 1's note | a message is filed under the conversation of exactly its two users (the lookup `Messages.FindConversation`), created when absent; for a message to oneself that is a conversation of the sender with themself, which then makes the sender's own conversation list fail with a 500 (`Messages.SelfSendBreaksList`), as the route itself does when the sender had no conversation yet (`Messages.SelfSendAsWrittenList`) | not executed | Messages.SelfNoteHijacksConversation | Messages.MessageStore.Send |
