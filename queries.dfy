/** The read side of blog/views.py: the feed (IndexView), the posts of one
    blog (BlogView), the list of blogs with the current user's subscription
    flag (BlogList), and the lookups that scope a row to the current user
    before it is changed (PostUpdateView.get_object and the unsubscribe
    view's get_object_or_404). */
module Queries {
  import opened Collections
  import opened Models
  import opened FanOut

  /** `created` of the post `id`, the key of ORDER BY -post__created; 0 for
      an id with no post, which referential integrity rules out. */
  function CreatedOf(posts: seq<Post>, id: PostId): int
  {
    match Find(posts, (p: Post) => p.id == id)
    case Some(i) => posts[i].created
    case None => 0
  }

  lemma CreatedOfPost(posts: seq<Post>, p: Post)
    requires UniqueBy(posts, PostPk) && p in posts
    ensures CreatedOf(posts, p.id) == p.created
  {
    var i :| Find(posts, (q: Post) => q.id == p.id) == Some(i);
    assert posts[i] in posts;
    UniqueKeysSame(posts, PostPk, posts[i], p);
  }

  /** The FeedPost joins to a subscription held by `user`
      (filter subscription__user_id = user). */
  predicate InFeedOf(subs: seq<Subscription>, user: UserId, f: FeedPost)
  {
    exists s :: s in subs && s.id == f.subscription && s.user == user
  }

  /** IndexView.get_queryset: the FeedPosts delivered through the
      subscriptions of `user`, the newest post first. */
  function Feed(db: Db, user: UserId): (r: seq<FeedPost>)
    ensures forall f :: f in r <==> f in db.feedPosts && InFeedOf(db.subscriptions, user, f)
    ensures forall f :: f in r ==> multiset(r)[f] == multiset(db.feedPosts)[f]
    ensures forall i, j :: 0 <= i < j < |r| ==> CreatedOf(db.posts, r[i].post) >= CreatedOf(db.posts, r[j].post)
  {
    var key := (f: FeedPost) => CreatedOf(db.posts, f.post);
    DescendingIsPreorder(key);
    var mine := Filter(db.feedPosts, (f: FeedPost) => InFeedOf(db.subscriptions, user, f));
    var r := SortBy(mine, Descending(key));
    assert multiset(r) == multiset(mine);
    SameMembers(r, mine);
    assert forall i, j :: 0 <= i < j < |r| ==> Descending(key)(r[i], r[j]);
    r
  }

  /** With both feed invariants, the feed of `user` holds exactly the posts
      of the blogs `user` follows: every such post is in it, and every row in
      it is a post of a followed blog. */
  lemma FeedIsFollowedPosts(db: Db, user: UserId)
    requires References(db) && FeedSound(db) && FeedComplete(db)
    ensures forall p, s :: p in db.posts && s in db.subscriptions && s.user == user && s.blog == p.blog ==>
      exists f :: f in Feed(db, user) && f.post == p.id && f.subscription == s.id
    ensures forall f :: f in Feed(db, user) ==>
      exists p, s :: (p in db.posts && s in db.subscriptions && s.user == user && s.blog == p.blog &&
        f.post == p.id && f.subscription == s.id)
  {
    FeedHasFollowedPosts(db, user);
    FeedHasOnlyFollowedPosts(db, user);
  }

  lemma FeedHasFollowedPosts(db: Db, user: UserId)
    requires FeedComplete(db)
    ensures forall p, s :: p in db.posts && s in db.subscriptions && s.user == user && s.blog == p.blog ==>
      exists f :: f in Feed(db, user) && f.post == p.id && f.subscription == s.id
  {
    var r := Feed(db, user);
    forall p, s | p in db.posts && s in db.subscriptions && s.user == user && s.blog == p.blog
      ensures exists f :: f in r && f.post == p.id && f.subscription == s.id
    {
      var f :| f in db.feedPosts && f.post == p.id && f.subscription == s.id;
      assert InFeedOf(db.subscriptions, user, f);
    }
  }

  lemma FeedHasOnlyFollowedPosts(db: Db, user: UserId)
    requires References(db) && FeedSound(db)
    ensures forall f :: f in Feed(db, user) ==>
      exists p, s :: (p in db.posts && s in db.subscriptions && s.user == user && s.blog == p.blog &&
        f.post == p.id && f.subscription == s.id)
  {
    var r := Feed(db, user);
    forall f | f in r
      ensures exists p, s :: (p in db.posts && s in db.subscriptions && s.user == user && s.blog == p.blog &&
        f.post == p.id && f.subscription == s.id)
    {
      var s :| s in db.subscriptions && s.id == f.subscription && s.user == user;
      var p :| p in db.posts && p.id == f.post;
    }
  }

  /** The blog BlogView shows: the route's blog_id when it is given and not
      zero (a falsy 0 falls back), otherwise the current user's own blog. */
  function ShownBlog(routeBlogId: Option<nat>, current: UserId): (b: UserId)
    ensures routeBlogId.Some? && routeBlogId.value != 0 ==> b == routeBlogId.value
    ensures routeBlogId.None? || routeBlogId.value == 0 ==> b == current
  {
    match routeBlogId
    case Some(b) => if b != 0 then b else current
    case None => current
  }

  /** BlogView.get_queryset: the posts of the shown blog, newest first. */
  function BlogPosts(posts: seq<Post>, routeBlogId: Option<nat>, current: UserId): (r: seq<Post>)
    ensures forall p :: p in r <==> p in posts && p.blog == ShownBlog(routeBlogId, current)
    ensures forall p :: p in r ==> multiset(r)[p] == multiset(posts)[p]
    ensures forall i, j :: 0 <= i < j < |r| ==> r[i].created >= r[j].created
  {
    var blog := ShownBlog(routeBlogId, current);
    var key := (p: Post) => p.created;
    DescendingIsPreorder(key);
    var shown := PostsOfBlog(posts, blog);
    var r := SortBy(shown, Descending(key));
    assert multiset(r) == multiset(shown);
    SameMembers(r, shown);
    assert forall i, j :: 0 <= i < j < |r| ==> Descending(key)(r[i], r[j]);
    r
  }

  /** One entry of the blog list: the `id` and `username` of a user and
      whether the current user follows that blog. */
  datatype BlogEntry = BlogEntry(id: UserId, username: string, isSubscribed: bool)

  /** The blogs the current user follows. */
  function FollowedBlogs(subs: seq<Subscription>, current: UserId): set<UserId>
  {
    set s | s in subs && s.user == current :: s.blog
  }

  /** The users, the most recently joined first. */
  function UsersByJoined(users: seq<User>): (r: seq<User>)
    ensures multiset(r) == multiset(users) && |r| == |users|
    ensures forall i, j :: 0 <= i < j < |r| ==> r[i].dateJoined >= r[j].dateJoined
  {
    var key := (u: User) => u.dateJoined;
    DescendingIsPreorder(key);
    var r := SortBy(users, Descending(key));
    assert forall i, j :: 0 <= i < j < |r| ==> Descending(key)(r[i], r[j]);
    r
  }

  /** BlogList.get_queryset: every user, the most recently joined first, each
      flagged with whether `current` follows that blog. */
  function BlogList(users: seq<User>, subs: seq<Subscription>, current: UserId): (r: seq<BlogEntry>)
    ensures |r| == |users|
    ensures forall i :: 0 <= i < |r| ==>
      r[i].id == UsersByJoined(users)[i].id && r[i].username == UsersByJoined(users)[i].username
    ensures forall i :: 0 <= i < |r| ==>
      (r[i].isSubscribed <==> exists s :: s in subs && s.user == current && s.blog == r[i].id)
  {
    var followed := FollowedBlogs(subs, current);
    var ordered := UsersByJoined(users);
    seq(|ordered|, i requires 0 <= i < |ordered| =>
      BlogEntry(ordered[i].id, ordered[i].username, ordered[i].id in followed))
  }

  /** PostUpdateView.get_object: the position of the post `pk` if its blog is
      `current`; nothing otherwise, whether the post is missing or belongs to
      someone else. */
  function OwnedPost(posts: seq<Post>, pk: PostId, current: UserId): (r: Option<nat>)
    ensures r.Some? ==> r.value < |posts| && posts[r.value].id == pk && posts[r.value].blog == current
    ensures r.None? <==> forall p :: p in posts ==> p.id != pk || p.blog != current
  {
    Find(posts, (p: Post) => p.id == pk && p.blog == current)
  }

  /** Another user's post cannot be told apart from a missing one. */
  lemma OthersPostNotFound(posts: seq<Post>, pk: PostId, current: UserId, p: Post)
    requires UniqueBy(posts, PostPk)
    requires p in posts && p.id == pk && p.blog != current
    ensures OwnedPost(posts, pk, current).None?
  {
    forall q | q in posts ensures q.id != pk || q.blog != current {
      if q.id == pk { UniqueKeysSame(posts, PostPk, p, q); }
    }
  }

  /** The unsubscribe view's lookup: the position of the subscription of
      `current` to `blog`, if any. */
  function OwnSubscription(subs: seq<Subscription>, blog: UserId, current: UserId): (r: Option<nat>)
    ensures r.Some? ==> r.value < |subs| && subs[r.value].blog == blog && subs[r.value].user == current
    ensures r.None? <==> forall s :: s in subs ==> s.blog != blog || s.user != current
  {
    Find(subs, (s: Subscription) => s.blog == blog && s.user == current)
  }
}
