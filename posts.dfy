/** The post routes: a paginated newest-first feed, post creation, the like
    toggle and comment append, over an in-memory post collection. Object ids
    and timestamps are natural numbers drawn from counters that grow on every
    write. */
module Posts {
  import opened Collections

  datatype Comment = Comment(id: nat, user: UserId, text: string, createdAt: nat)

  datatype Post = Post(
    id: nat,
    user: UserId,
    content: string,
    image: Option<string>,
    likes: int,
    likedBy: seq<UserId>,
    comments: seq<Comment>,
    createdAt: nat)

  /** The body of the like route's reply: `{ likes, liked }`. */
  datatype LikeReply = LikeReply(likes: int, liked: bool)

  // ---------------------------------------------------------------------
  // GET / : offset/limit pagination over the newest-first order

  /** `parseInt(query) || fallback`, where `parsed` is what `parseInt` gave
      (None for NaN, which is also what a missing parameter gives). */
  function OrDefault(parsed: Option<int>, fallback: int): (r: int)
    ensures r == fallback || (parsed == Some(r) && r != 0)
    ensures parsed.Some? && parsed.value != 0 ==> r == parsed.value
  {
    if parsed.None? || parsed.value == 0 then fallback else parsed.value
  }

  /** `.sort({ createdAt: -1 })`. */
  function NewestFirst(posts: seq<Post>): seq<Post> {
    SortBy(posts, (p: Post) => -(p.createdAt as int))
  }

  /** `.skip(skip).limit(limit)` over an already ordered sequence. */
  function Window<T>(s: seq<T>, skip: nat, limit: nat): seq<T> {
    var lo := if skip < |s| then skip else |s|;
    var hi := if skip + limit < |s| then skip + limit else |s|;
    s[lo..hi]
  }

  /** The offset the route computes: `(page - 1) * limit`. */
  function Offset(page: Option<int>, limit: Option<int>): int {
    (OrDefault(page, 1) - 1) * OrDefault(limit, 10)
  }

  /** The number of posts a page may hold. MongoDB reads a negative limit as
      its absolute value (returned in a single batch). */
  function PageSize(limit: Option<int>): nat {
    var l := OrDefault(limit, 10);
    if l < 0 then -l else l
  }

  /** GET /api/posts?page&limit. A negative offset is refused by the store,
      which the route's `catch` turns into a 500. */
  function Feed(posts: seq<Post>, page: Option<int>, limit: Option<int>): (r: Result<seq<Post>>)
    ensures r.Failure? <==> Offset(page, limit) < 0
    ensures r.Failure? ==> r.error == ServerError
    ensures r.Success? ==> |r.value| <= PageSize(limit) && |r.value| <= |posts|
  {
    var skip := Offset(page, limit);
    if skip < 0 then Failure(ServerError)
    else Success(Window(NewestFirst(posts), skip, PageSize(limit)))
  }

  /** A missing, non-numeric or zero page means page 1, whatever the
      limit: the offset is 0. */
  lemma FeedDefaultPage(posts: seq<Post>, page: Option<int>, limit: Option<int>)
    requires page.None? || page == Some(0)
    ensures Offset(page, limit) == 0
    ensures Feed(posts, page, limit) == Feed(posts, Some(1), limit)
  {
  }

  /** A missing, non-numeric or zero limit means 10, whatever the page. */
  lemma FeedDefaultLimit(posts: seq<Post>, page: Option<int>, limit: Option<int>)
    requires limit.None? || limit == Some(0)
    ensures PageSize(limit) == 10
    ensures Offset(page, limit) == (OrDefault(page, 1) - 1) * 10
    ensures Feed(posts, page, limit) == Feed(posts, page, Some(10))
  {
  }

  /** The offset is `(page - 1) * limit`; it is negative, and the route
      fails, exactly when the effective page and limit pull in opposite
      directions. */
  lemma FeedFailsOnNegativeOffset(posts: seq<Post>, page: Option<int>, limit: Option<int>)
    ensures Feed(posts, page, limit).Failure? <==> Offset(page, limit) < 0
    ensures Feed(posts, page, limit).Failure? ==> Feed(posts, page, limit).error == ServerError
    ensures page.Some? && page.value >= 1 && limit.Some? && limit.value >= 1 ==>
      Offset(page, limit) == (page.value - 1) * limit.value && Feed(posts, page, limit).Success?
  {
    if page.Some? && page.value >= 1 && limit.Some? && limit.value >= 1 {
      assert (page.value - 1) * limit.value >= 0;
    }
  }

  /** `r` is the page of `size` posts after the first `skip` of the
      newest-first order: it holds as many posts as remain, up to `size`,
      each the one at its position in that order, newest first, and all
      stored posts. */
  ghost predicate IsPage(r: seq<Post>, posts: seq<Post>, skip: nat, size: nat) {
    && |r| == (if skip >= |posts| then 0
               else if |posts| - skip < size then |posts| - skip
               else size)
    && |r| <= size
    && (forall i :: 0 <= i < |r| ==> skip + i < |posts| && r[i] == NewestFirst(posts)[skip + i])
    && (forall i, j :: 0 <= i < j < |r| ==> r[i].createdAt >= r[j].createdAt)
    && (forall i :: 0 <= i < |r| ==> r[i] in posts)
  }

  /** A listed page is the newest-first order with the first `skip` posts
      dropped, cut to at most `limit` posts; it is empty once `skip` reaches
      the number of posts. */
  lemma FeedPage(posts: seq<Post>, page: Option<int>, limit: Option<int>)
    requires Feed(posts, page, limit).Success?
    ensures Offset(page, limit) >= 0
    ensures IsPage(Feed(posts, page, limit).value, posts, Offset(page, limit), PageSize(limit))
  {
    FeedIsWindow(posts, page, limit);
    NewestFirstWindow(posts, Offset(page, limit), PageSize(limit));
  }

  /** A successful feed is the window at the route's offset. */
  lemma FeedIsWindow(posts: seq<Post>, page: Option<int>, limit: Option<int>)
    requires Feed(posts, page, limit).Success?
    ensures Offset(page, limit) >= 0
    ensures Feed(posts, page, limit).value == Window(NewestFirst(posts), Offset(page, limit), PageSize(limit))
  {
  }

  /** Any window of the newest-first order is the page at that offset. */
  lemma NewestFirstWindow(posts: seq<Post>, skip: nat, size: nat)
    ensures IsPage(Window(NewestFirst(posts), skip, size), posts, skip, size)
  {
    var sorted := NewestFirst(posts);
    var r := Window(sorted, skip, size);
    SameMultisetSameMembers(posts, sorted);
    WindowOf(sorted, skip, size);
    forall i, j | 0 <= i < j < |r| ensures r[i].createdAt >= r[j].createdAt {
      NewestFirstOrder(posts, skip + i, skip + j);
    }
  }

  /** The window's length and elements. */
  lemma WindowOf<T>(s: seq<T>, skip: nat, limit: nat)
    ensures |Window(s, skip, limit)| == (if skip >= |s| then 0
                                         else if |s| - skip < limit then |s| - skip
                                         else limit)
    ensures forall i :: 0 <= i < |Window(s, skip, limit)| ==> Window(s, skip, limit)[i] == s[skip + i]
  {
  }

  lemma NewestFirstOrder(posts: seq<Post>, i: nat, j: nat)
    requires i < j < |NewestFirst(posts)|
    ensures NewestFirst(posts)[i].createdAt >= NewestFirst(posts)[j].createdAt
  {
    var key := (p: Post) => -(p.createdAt as int);
    assert SortedBy(NewestFirst(posts), key);
    assert key(NewestFirst(posts)[i]) <= key(NewestFirst(posts)[j]);
  }

  /** Page `k + 1` continues where page `k` stops: two consecutive pages
      together are the window of twice the size. */
  lemma {:induction false} ConsecutivePages(posts: seq<Post>, page: int, limit: int)
    requires page >= 1 && limit >= 1
    ensures Feed(posts, Some(page), Some(limit)).Success?
    ensures Feed(posts, Some(page + 1), Some(limit)).Success?
    ensures Feed(posts, Some(page), Some(limit)).value + Feed(posts, Some(page + 1), Some(limit)).value
         == Window(NewestFirst(posts), (page - 1) * limit, 2 * limit)
  {
    var a := (page - 1) * limit;
    assert a >= 0 && Offset(Some(page), Some(limit)) == a;
    assert Offset(Some(page + 1), Some(limit)) == a + limit by {
      assert page * limit == (page - 1) * limit + limit;
    }
    WindowsConcat(NewestFirst(posts), a, limit, limit);
  }

  /** Two adjacent windows make up the window of their combined size. */
  lemma WindowsConcat<T>(s: seq<T>, skip: nat, l1: nat, l2: nat)
    ensures Window(s, skip, l1) + Window(s, skip + l1, l2) == Window(s, skip, l1 + l2)
  {
    var lo := if skip < |s| then skip else |s|;
    var mid := if skip + l1 < |s| then skip + l1 else |s|;
    var hi := if skip + l1 + l2 < |s| then skip + l1 + l2 else |s|;
    assert s[lo..mid] + s[mid..hi] == s[lo..hi];
  }

  // ---------------------------------------------------------------------
  // POST /:id/like : the toggle, as a function of one post

  /** `Array.prototype.indexOf`: the first position of `u`, or -1. */
  function IndexOf(s: seq<UserId>, u: UserId): (r: int)
    ensures -1 <= r < |s|
    ensures r == -1 <==> u !in s
    ensures r >= 0 ==> s[r] == u && u !in s[..r]
  {
    match FirstWhere(s, (x: UserId) => x == u)
    case None => -1
    case Some(k) => k
  }

  /** What the like route does to the loaded post: a caller absent from
      `likedBy` is pushed and `likes` goes up by one; a present caller is
      spliced out at its first position and `likes` goes down by one. */
  function Toggled(p: Post, u: UserId): (r: Post)
    ensures r.likes == if u in p.likedBy then p.likes - 1 else p.likes + 1
    ensures |r.likedBy| == if u in p.likedBy then |p.likedBy| - 1 else |p.likedBy| + 1
  {
    var index := IndexOf(p.likedBy, u);
    if index == -1 then
      assert u !in p.likedBy;
      p.(likes := p.likes + 1, likedBy := p.likedBy + [u])
    else
      assert u in p.likedBy;
      var rest := p.likedBy[..index] + p.likedBy[index + 1..];
      assert |rest| == |p.likedBy| - 1;
      p.(likes := p.likes - 1, likedBy := rest)
  }

  /** Liking a post not yet liked by the caller: the caller is appended and
      the counter goes up by exactly one. Unliking: exactly one occurrence
      of the caller leaves `likedBy` and the counter goes down by exactly one.
      Nothing else about the post changes. */
  lemma ToggleEffect(p: Post, u: UserId)
    ensures var q := Toggled(p, u);
      && q == p.(likes := q.likes, likedBy := q.likedBy)
      && (u !in p.likedBy ==> q.likes == p.likes + 1 && q.likedBy == p.likedBy + [u])
      && (u in p.likedBy ==>
            (&& q.likes == p.likes - 1
             && multiset(q.likedBy) == multiset(p.likedBy) - multiset{u}
             && |q.likedBy| == |p.likedBy| - 1))
  {
    var index := IndexOf(p.likedBy, u);
    if index != -1 {
      var s := p.likedBy;
      assert s == s[..index] + [u] + s[index + 1..];
    }
  }

  /** `likes - |likedBy|` is what the toggle never changes, so
      `likes == |likedBy|` is kept; a duplicate-free `likedBy` stays so, and
      then the caller is in it afterwards exactly when it was not before. */
  lemma ToggleKeepsConsistency(p: Post, u: UserId)
    ensures Toggled(p, u).likes - |Toggled(p, u).likedBy| == p.likes - |p.likedBy|
    ensures NoDup(p.likedBy) ==> NoDup(Toggled(p, u).likedBy)
    ensures NoDup(p.likedBy) ==> (u in Toggled(p, u).likedBy <==> u !in p.likedBy)
  {
    var s := p.likedBy;
    var index := IndexOf(s, u);
    if index != -1 && NoDup(s) {
      SpliceKeepsNoDup(s, index);
      assert Toggled(p, u).likedBy == s[..index] + s[index + 1..];
    } else if index == -1 {
      assert Toggled(p, u).likedBy == s + [u];
    }
  }

  /** Removing the entry at `index` from a duplicate-free sequence leaves it
      duplicate-free and without that value. */
  lemma SpliceKeepsNoDup(s: seq<UserId>, index: nat)
    requires index < |s| && NoDup(s)
    ensures NoDup(s[..index] + s[index + 1..])
    ensures s[index] !in s[..index] + s[index + 1..]
  {
    var t := s[..index] + s[index + 1..];
    forall i, j | 0 <= i < j < |t| ensures t[i] != t[j] {
      var i' := if i < index then i else i + 1;
      var j' := if j < index then j else j + 1;
      assert t[i] == s[i'] && t[j] == s[j'];
    }
    forall k | 0 <= k < |t| ensures t[k] != s[index] {
      var k' := if k < index then k else k + 1;
      assert t[k] == s[k'] && k' != index;
    }
  }

  /** Toggling twice by the same caller restores the counter and the members
      of `likedBy` when `likedBy` has no duplicates; when the first toggle was
      a like, the whole post. */
  lemma ToggleTwice(p: Post, u: UserId)
    ensures u !in p.likedBy ==> Toggled(Toggled(p, u), u) == p
    ensures NoDup(p.likedBy) ==> Toggled(Toggled(p, u), u).likes == p.likes
    ensures NoDup(p.likedBy) ==> multiset(Toggled(Toggled(p, u), u).likedBy) == multiset(p.likedBy)
  {
    if u !in p.likedBy {
      LikeThenUnlike(p, u);
    } else if NoDup(p.likedBy) {
      UnlikeThenLike(p, u);
    }
  }

  lemma LikeThenUnlike(p: Post, u: UserId)
    requires u !in p.likedBy
    ensures Toggled(Toggled(p, u), u) == p
  {
    var s := p.likedBy;
    var q := Toggled(p, u);
    assert q.likedBy == s + [u] && q.likes == p.likes + 1;
    var index := IndexOf(q.likedBy, u);
    assert index == |s|;
    assert q.likedBy[..index] + q.likedBy[index + 1..] == s;
  }

  lemma UnlikeThenLike(p: Post, u: UserId)
    requires u in p.likedBy && NoDup(p.likedBy)
    ensures Toggled(Toggled(p, u), u).likes == p.likes
    ensures multiset(Toggled(Toggled(p, u), u).likedBy) == multiset(p.likedBy)
  {
    var q := Toggled(p, u);
    ToggleEffect(p, u);
    ToggleKeepsConsistency(p, u);
    assert u !in q.likedBy;
    assert Toggled(q, u).likedBy == q.likedBy + [u];
  }

  // ---------------------------------------------------------------------
  // The store

  /** `Post.findById`: the position of the post with this id. */
  function IndexOfPost(posts: seq<Post>, id: nat): (r: Option<nat>)
    ensures r.Some? ==> r.value < |posts| && posts[r.value].id == id
    ensures r.None? <==> forall j :: 0 <= j < |posts| ==> posts[j].id != id
  {
    FirstWhere(posts, (p: Post) => p.id == id)
  }

  /** One post as the store keeps it: ids and timestamps already issued,
      the like counter in step with a duplicate-free `likedBy`, comment ids
      unique within the post. */
  ghost predicate PostOk(p: Post, clock: nat, nextId: nat) {
    && p.id < nextId
    && p.createdAt < clock
    && p.likes == |p.likedBy|
    && NoDup(p.likedBy)
    && (forall k :: 0 <= k < |p.comments| ==> p.comments[k].id < nextId && p.comments[k].createdAt < clock)
    && (forall k, l :: 0 <= k < l < |p.comments| ==> p.comments[k].id != p.comments[l].id)
  }

  ghost predicate StoreOk(posts: seq<Post>, clock: nat, nextId: nat) {
    && (forall i {:trigger PostOk(posts[i], clock, nextId)} :: 0 <= i < |posts| ==> PostOk(posts[i], clock, nextId))
    && (forall i, j :: 0 <= i < j < |posts| ==> posts[i].id != posts[j].id)
  }

  /** A like on an existing post keeps every store invariant, in particular
      `likes == |likedBy|` for every post. */
  lemma LikeKeepsStore(posts: seq<Post>, clock: nat, nextId: nat, i: nat, u: UserId)
    requires StoreOk(posts, clock, nextId)
    requires i < |posts|
    ensures StoreOk(posts[i := Toggled(posts[i], u)], clock + 1, nextId)
    ensures Toggled(posts[i], u).likes == |Toggled(posts[i], u).likedBy|
  {
    var posts' := posts[i := Toggled(posts[i], u)];
    assert PostOk(posts[i], clock, nextId);
    ToggleEffect(posts[i], u);
    ToggleKeepsConsistency(posts[i], u);
    forall j | 0 <= j < |posts'| ensures PostOk(posts'[j], clock + 1, nextId) {
      assert PostOk(posts[j], clock, nextId);
    }
  }

  /** A new post with a fresh id, no likes and no comments keeps every store
      invariant. */
  lemma CreateKeepsStore(posts: seq<Post>, clock: nat, nextId: nat, u: UserId, content: string, image: Option<string>)
    requires StoreOk(posts, clock, nextId)
    ensures StoreOk(posts + [Post(nextId, u, content, image, 0, [], [], clock)], clock + 1, nextId + 1)
  {
    var posts' := posts + [Post(nextId, u, content, image, 0, [], [], clock)];
    forall j | 0 <= j < |posts'| ensures PostOk(posts'[j], clock + 1, nextId + 1) && posts'[j].id < nextId + 1 {
      if j < |posts| {
        assert PostOk(posts[j], clock, nextId);
        assert posts'[j] == posts[j];
      }
    }
    forall j, k | 0 <= j < k < |posts'| ensures posts'[j].id != posts'[k].id {
      assert PostOk(posts[j], clock, nextId);
    }
  }

  /** Appending a comment with a fresh id and the current time to an
      existing post keeps every store invariant. */
  lemma CommentKeepsStore(posts: seq<Post>, clock: nat, nextId: nat, i: nat, u: UserId, text: string)
    requires StoreOk(posts, clock, nextId)
    requires i < |posts|
    ensures var c := Comment(nextId, u, text, clock);
      StoreOk(posts[i := posts[i].(comments := posts[i].comments + [c])], clock + 1, nextId + 1)
  {
    var c := Comment(nextId, u, text, clock);
    var posts' := posts[i := posts[i].(comments := posts[i].comments + [c])];
    forall j | 0 <= j < |posts'| ensures PostOk(posts'[j], clock + 1, nextId + 1) {
      assert PostOk(posts[j], clock, nextId);
      if j == i {
        var cs := posts[i].comments + [c];
        assert forall k :: 0 <= k < |posts[i].comments| ==> cs[k] == posts[i].comments[k];
      }
    }
  }

  class PostStore {
    var posts: seq<Post>
    var clock: nat
    var nextId: nat

    ghost predicate Valid()
      reads this
    {
      StoreOk(posts, clock, nextId)
    }

    constructor ()
      ensures Valid() && posts == []
    {
      posts, clock, nextId := [], 0, 0;
    }

    /** POST /api/posts: a post owned by the caller, with no likes and no
        comments, is added; the existing posts are untouched. */
    method Create(caller: UserId, content: string, image: Option<string>) returns (p: Post)
      requires Valid()
      modifies this
      ensures Valid()
      ensures p == Post(old(nextId), caller, content, image, 0, [], [], old(clock))
      ensures posts == old(posts) + [p]
      ensures clock == old(clock) + 1 && nextId == old(nextId) + 1
    {
      ghost var posts0, clock0, id0 := posts, clock, nextId;
      p := Post(nextId, caller, content, image, 0, [], [], clock);
      posts := posts + [p];
      nextId := nextId + 1;
      clock := clock + 1;
      assert Valid() by {
        CreateKeepsStore(posts0, clock0, id0, caller, content, image);
      }
    }

    /** POST /api/posts/:id/like. */
    method Like(postId: nat, caller: UserId) returns (r: Result<LikeReply>)
      requires Valid()
      modifies this
      ensures Valid()
      ensures r.Failure? <==> IndexOfPost(old(posts), postId).None?
      ensures r.Failure? ==> r.error == NotFound && posts == old(posts) && clock == old(clock)
      ensures nextId == old(nextId)
      ensures r.Success? ==>
        var i := IndexOfPost(old(posts), postId).value;
        && posts == old(posts)[i := Toggled(old(posts)[i], caller)]
        && r.value == LikeReply(posts[i].likes, caller !in old(posts)[i].likedBy)
        && clock == old(clock) + 1
    {
      var found := IndexOfPost(posts, postId);
      if found.None? {
        return Failure(NotFound);
      }
      var i := found.value;
      ghost var posts0, clock0 := posts, clock;
      var post := posts[i];
      var index := IndexOf(post.likedBy, caller);
      if index == -1 {
        post := post.(likes := post.likes + 1);
        post := post.(likedBy := post.likedBy + [caller]);
      } else {
        post := post.(likes := post.likes - 1);
        post := post.(likedBy := post.likedBy[..index] + post.likedBy[index + 1..]);
      }
      posts := posts[i := post];
      clock := clock + 1;
      r := Success(LikeReply(post.likes, index == -1));
      assert post == Toggled(posts0[i], caller);
      assert Valid() by {
        LikeKeepsStore(posts0, clock0, nextId, i, caller);
      }
    }

    /** POST /api/posts/:id/comment: one comment by the caller is appended to
        the post and returned as its new last element. */
    method AddComment(postId: nat, caller: UserId, text: string) returns (r: Result<Comment>)
      requires Valid()
      modifies this
      ensures Valid()
      ensures r.Failure? <==> IndexOfPost(old(posts), postId).None?
      ensures r.Failure? ==>
        r.error == NotFound && posts == old(posts) && clock == old(clock) && nextId == old(nextId)
      ensures r.Success? ==>
        var i := IndexOfPost(old(posts), postId).value;
        && r.value == Comment(old(nextId), caller, text, old(clock))
        && posts == old(posts)[i := old(posts)[i].(comments := old(posts)[i].comments + [r.value])]
        && r.value == posts[i].comments[|posts[i].comments| - 1]
        && clock == old(clock) + 1 && nextId == old(nextId) + 1
    {
      var found := IndexOfPost(posts, postId);
      if found.None? {
        return Failure(NotFound);
      }
      var i := found.value;
      ghost var posts0, clock0, id0 := posts, clock, nextId;
      var post := posts[i];
      post := post.(comments := post.comments + [Comment(nextId, caller, text, clock)]);
      posts := posts[i := post];
      nextId := nextId + 1;
      clock := clock + 1;
      var comment := post.comments[|post.comments| - 1];
      r := Success(comment);
      assert Valid() by {
        CommentKeepsStore(posts0, clock0, id0, i, caller, text);
      }
    }
  }
}
