/** The write side of blog/views.py over the four tables: creating and
    editing a post (PostCreateView, PostUpdateView) with the post_save
    handler that fans the post out, subscribing (SubscriptionCreateView) with
    the handler that fans the blog's posts out to the new subscription,
    unsubscribing (SubscriptionDeleteView), marking a FeedPost read
    (PostMakeReadView) and deleting a post (PostDeleteView). The logged-in
    user, the clock and the ids the database hands out are explicit: the
    user is a parameter, the time of creation is a parameter, and the next
    free id of each table is a field. */
module Views {
  import opened Collections
  import opened Models
  import opened FanOut
  import opened Queries

  /** How a request fails: a 404 from get_object_or_404 or get_object, an
      IntegrityError from a unique_together constraint, an IntegrityError
      from a foreign key to a missing user, or a form that does not
      validate. */
  datatype Error = NotFound | Conflict | MissingReference | InvalidForm

  datatype Result<T> = Ok(value: T) | Err(error: Error)

  /** The model form of the post views: `title` is required and at most 255
      characters, `post` (the text) is required. */
  predicate PostFormValid(title: string, body: string)
  {
    0 < |title| <= TitleMaxLength && 0 < |body|
  }

  /** A post of `blog` other than `self` already has `title`: saving would
      break unique_together (blog, title). */
  predicate TitleTaken(posts: seq<Post>, blog: UserId, title: string, self: Option<PostId>)
  {
    exists q :: q in posts && q.blog == blog && q.title == title && Some(q.id) != self
  }

  /** The FeedPost table after the row `pk` is flagged read. */
  function RowsWithRead(rows: seq<FeedPost>, pk: FeedPostId): (r: seq<FeedPost>)
    ensures |r| == |rows|
    ensures forall i :: 0 <= i < |r| ==>
      r[i].id == rows[i].id && r[i].post == rows[i].post && r[i].subscription == rows[i].subscription &&
      (r[i].isRead <==> rows[i].isRead || rows[i].id == pk)
  {
    seq(|rows|, i requires 0 <= i < |rows| => if rows[i].id == pk then rows[i].(isRead := true) else rows[i])
  }

  /** Marking a row read a second time changes nothing. */
  lemma RowsWithReadIdempotent(rows: seq<FeedPost>, pk: FeedPostId)
    ensures RowsWithRead(RowsWithRead(rows, pk), pk) == RowsWithRead(rows, pk)
  {
    var once := RowsWithRead(rows, pk);
    var twice := RowsWithRead(once, pk);
    forall i | 0 <= i < |rows| ensures twice[i] == once[i] {
      assert once[i].isRead || once[i].id != pk;
    }
  }

  /** Marking a row read keeps the database valid and both feed invariants:
      it touches no key and no foreign key. */
  lemma RowsWithReadKeepsInvariants(db: Db, pk: FeedPostId)
    requires Valid(db) && FeedSound(db) && FeedComplete(db)
    ensures var db' := db.(feedPosts := RowsWithRead(db.feedPosts, pk));
      Valid(db') && FeedSound(db') && FeedComplete(db')
  {
    RowsWithReadUnique(db.feedPosts, pk);
    RowsWithReadSound(db, pk);
    RowsWithReadComplete(db, pk);
  }

  lemma RowsWithReadUnique(rows: seq<FeedPost>, pk: FeedPostId)
    requires UniqueBy(rows, FeedPostPk)
    ensures UniqueBy(RowsWithRead(rows, pk), FeedPostPk)
  {
    var r := RowsWithRead(rows, pk);
    forall i, j | 0 <= i < j < |r| ensures FeedPostPk(r[i]) != FeedPostPk(r[j]) {
      UniqueKeysDistinct(rows, FeedPostPk, i, j);
    }
    DistinctKeysUnique(r, FeedPostPk);
  }

  /** Every flagged row joins what the row it replaces joined, so foreign keys
      and FeedSound carry over. */
  lemma RowsWithReadSound(db: Db, pk: FeedPostId)
    requires References(db) && FeedSound(db)
    ensures var db' := db.(feedPosts := RowsWithRead(db.feedPosts, pk));
      References(db') && FeedSound(db')
  {
    var r := RowsWithRead(db.feedPosts, pk);
    forall f | f in r
      ensures f.post in PostIds(db.posts) && f.subscription in SubscriptionIds(db.subscriptions)
      ensures forall p, s :: p in db.posts && s in db.subscriptions && p.id == f.post && s.id == f.subscription ==>
        p.blog == s.blog
    {
      var k :| 0 <= k < |r| && r[k] == f;
      assert db.feedPosts[k] in db.feedPosts;
    }
  }

  /** Every row keeps its post and subscription, so FeedComplete carries
      over. */
  lemma RowsWithReadComplete(db: Db, pk: FeedPostId)
    requires FeedComplete(db)
    ensures FeedComplete(db.(feedPosts := RowsWithRead(db.feedPosts, pk)))
  {
    var r := RowsWithRead(db.feedPosts, pk);
    forall p, s | p in db.posts && s in db.subscriptions && p.blog == s.blog
      ensures exists f :: f in r && f.post == p.id && f.subscription == s.id
    {
      var g :| g in db.feedPosts && g.post == p.id && g.subscription == s.id;
      var k :| 0 <= k < |db.feedPosts| && db.feedPosts[k] == g;
      assert r[k] in r;
    }
  }

  /** The constraints of the schema, both feed invariants, and every id in
      use below the next free id of its table. */
  ghost predicate Consistent(db: Db, nextPostId: PostId, nextSubscriptionId: SubscriptionId, nextFeedPostId: FeedPostId)
  {
    Valid(db) && FeedSound(db) && FeedComplete(db) &&
    (forall p :: p in db.posts ==> p.id < nextPostId) &&
    (forall s :: s in db.subscriptions ==> s.id < nextSubscriptionId) &&
    IdsBelow(db.feedPosts, nextFeedPostId)
  }

  /** Saving a new post with the next free id and a title new on its blog,
      then fanning it out, keeps the tables consistent. */
  lemma CreatePostConsistent(db: Db, p: Post, nextPostId: PostId, nextSubscriptionId: SubscriptionId, nextFeedPostId: FeedPostId)
    requires Consistent(db, nextPostId, nextSubscriptionId, nextFeedPostId)
    requires p.id == nextPostId && p.blog in UserIds(db.users)
    requires forall q :: q in db.posts ==> PostBlogTitle(q) != PostBlogTitle(p)
    ensures Consistent(AfterCreatePost(db, p, nextFeedPostId), nextPostId + 1, nextSubscriptionId,
      nextFeedPostId + |PostFanOut(db.subscriptions, p.id, p.blog, nextFeedPostId)|)
  {
    CreatePostKeepsInvariants(db, p, nextFeedPostId);
    BatchIdsBelow(db.feedPosts, PostFanOut(db.subscriptions, p.id, p.blog, nextFeedPostId), nextFeedPostId);
  }

  /** Saving post `i` again with a title no other post of its blog has, then
      fanning it out again, keeps the tables consistent. */
  lemma UpdatePostConsistent(db: Db, i: nat, title: string, body: string,
                             nextPostId: PostId, nextSubscriptionId: SubscriptionId, nextFeedPostId: FeedPostId)
    requires Consistent(db, nextPostId, nextSubscriptionId, nextFeedPostId)
    requires i < |db.posts|
    requires forall q :: q in db.posts && q.id != db.posts[i].id ==> PostBlogTitle(q) != (db.posts[i].blog, title)
    ensures Consistent(AfterUpdatePost(db, i, title, body, nextFeedPostId), nextPostId, nextSubscriptionId,
      nextFeedPostId + |PostFanOut(db.subscriptions, db.posts[i].id, db.posts[i].blog, nextFeedPostId)|)
  {
    UpdatePostKeepsInvariants(db, i, title, body, nextFeedPostId);
    BatchIdsBelow(db.feedPosts, PostFanOut(db.subscriptions, db.posts[i].id, db.posts[i].blog, nextFeedPostId), nextFeedPostId);
    var r := AfterUpdatePost(db, i, title, body, nextFeedPostId);
    forall q | q in r.posts ensures q.id < nextPostId {
      ReplaceAtMembers(db.posts, i, db.posts[i].(title := title, body := body));
    }
  }

  /** Saving a new subscription with the next free id to a pair not yet
      subscribed, then fanning the blog's posts out to it, keeps the tables
      consistent. */
  lemma CreateSubscriptionConsistent(db: Db, s: Subscription, blogPosts: seq<Post>,
                                     nextPostId: PostId, nextSubscriptionId: SubscriptionId, nextFeedPostId: FeedPostId)
    requires Consistent(db, nextPostId, nextSubscriptionId, nextFeedPostId)
    requires multiset(blogPosts) == multiset(PostsOfBlog(db.posts, s.blog))
    requires s.id == nextSubscriptionId && s.blog in UserIds(db.users) && s.user in UserIds(db.users)
    requires forall t :: t in db.subscriptions ==> SubscriptionBlogUser(t) != SubscriptionBlogUser(s)
    ensures Consistent(AfterCreateSubscription(db, s, blogPosts, nextFeedPostId), nextPostId, nextSubscriptionId + 1,
      nextFeedPostId + |SubscriptionFanOut(blogPosts, s.id, nextFeedPostId)|)
  {
    CreateSubscriptionKeepsInvariants(db, s, blogPosts, nextFeedPostId);
    BatchIdsBelow(db.feedPosts, SubscriptionFanOut(blogPosts, s.id, nextFeedPostId), nextFeedPostId);
  }

  /** Deleting a post with its FeedPosts keeps the tables consistent. */
  lemma DeletePostConsistent(db: Db, pk: PostId,
                             nextPostId: PostId, nextSubscriptionId: SubscriptionId, nextFeedPostId: FeedPostId)
    requires Consistent(db, nextPostId, nextSubscriptionId, nextFeedPostId)
    ensures Consistent(DeletePost(db, pk), nextPostId, nextSubscriptionId, nextFeedPostId)
  {
    DeletePostValid(db, pk);
    DeletePostKeepsFeed(db, pk);
  }

  /** Deleting a subscription with its FeedPosts keeps the tables consistent. */
  lemma DeleteSubscriptionConsistent(db: Db, pk: SubscriptionId,
                                     nextPostId: PostId, nextSubscriptionId: SubscriptionId, nextFeedPostId: FeedPostId)
    requires Consistent(db, nextPostId, nextSubscriptionId, nextFeedPostId)
    ensures Consistent(DeleteSubscription(db, pk), nextPostId, nextSubscriptionId, nextFeedPostId)
  {
    DeleteSubscriptionValid(db, pk);
    DeleteSubscriptionKeepsFeed(db, pk);
  }

  /** Marking a FeedPost read keeps the tables consistent. */
  lemma RowsWithReadConsistent(db: Db, pk: FeedPostId,
                           nextPostId: PostId, nextSubscriptionId: SubscriptionId, nextFeedPostId: FeedPostId)
    requires Consistent(db, nextPostId, nextSubscriptionId, nextFeedPostId)
    ensures Consistent(db.(feedPosts := RowsWithRead(db.feedPosts, pk)), nextPostId, nextSubscriptionId, nextFeedPostId)
  {
    RowsWithReadKeepsInvariants(db, pk);
    var r := RowsWithRead(db.feedPosts, pk);
    forall f | f in r ensures f.id < nextFeedPostId {
      var k :| 0 <= k < |r| && r[k] == f;
      assert db.feedPosts[k] in db.feedPosts;
    }
  }

  /** The four tables of the blog with the next free id of each table the
      views insert into. */
  class Store {
    var users: seq<User>
    var posts: seq<Post>
    var subscriptions: seq<Subscription>
    var feedPosts: seq<FeedPost>
    var nextPostId: PostId
    var nextSubscriptionId: SubscriptionId
    var nextFeedPostId: FeedPostId

    function Tables(): Db
      reads this
    {
      Db(users, posts, subscriptions, feedPosts)
    }

    /** The constraints of the schema, both feed invariants, and every id in
        use below the next free one. */
    ghost predicate Valid()
      reads this
    {
      Consistent(Tables(), nextPostId, nextSubscriptionId, nextFeedPostId)
    }

    /** A store with the registered `users` and nothing else. */
    constructor (users: seq<User>)
      requires UniqueBy(users, UserPk)
      ensures Valid()
      ensures Tables() == Db(users, [], [], [])
    {
      this.users := users;
      posts := [];
      subscriptions := [];
      feedPosts := [];
      nextPostId := 1;
      nextSubscriptionId := 1;
      nextFeedPostId := 1;
    }

    /** Post.save() for a new post `p` with the next free id and a title
        new on its blog, then post_after_save: one unread FeedPost per
        subscription to the blog, and the addresses the mail goes to. */
    method InsertPost(p: Post) returns (recipients: seq<string>)
      requires Valid()
      requires p.id == nextPostId && p.blog in UserIds(users)
      requires forall q :: q in posts ==> PostBlogTitle(q) != PostBlogTitle(p)
      modifies this
      ensures Valid()
      ensures Tables() == AfterCreatePost(old(Tables()), p, old(nextFeedPostId))
      ensures recipients == Recipients(users, subscriptions, p.blog)
      ensures nextPostId == old(nextPostId) + 1 && nextSubscriptionId == old(nextSubscriptionId)
      ensures nextFeedPostId == old(nextFeedPostId) + |PostFanOut(subscriptions, p.id, p.blog, old(nextFeedPostId))|
    {
      ghost var after := AfterCreatePost(Tables(), p, nextFeedPostId);
      CreatePostConsistent(Tables(), p, nextPostId, nextSubscriptionId, nextFeedPostId);
      posts := posts + [p];
      nextPostId := nextPostId + 1;
      // post_after_save: the batch of FeedPosts, then the mail's recipients
      var batch := PostFanOut(subscriptions, p.id, p.blog, nextFeedPostId);
      feedPosts := feedPosts + batch;
      nextFeedPostId := nextFeedPostId + |batch|;
      assert Tables() == after;
      recipients := Recipients(users, subscriptions, p.blog);
    }

    /** Post.save() for the post at position `i` with a new title, unused by
        the other posts of its blog, and text, then post_after_save, which
        fans the post out again. */
    method ResavePost(i: nat, title: string, body: string) returns (recipients: seq<string>)
      requires Valid()
      requires i < |posts|
      requires forall q :: q in posts && q.id != posts[i].id ==> PostBlogTitle(q) != (posts[i].blog, title)
      modifies this
      ensures Valid()
      ensures Tables() == AfterUpdatePost(old(Tables()), i, title, body, old(nextFeedPostId))
      ensures recipients == Recipients(users, subscriptions, old(posts[i].blog))
      ensures nextPostId == old(nextPostId) && nextSubscriptionId == old(nextSubscriptionId)
      ensures nextFeedPostId ==
        old(nextFeedPostId) + |PostFanOut(subscriptions, old(posts[i].id), old(posts[i].blog), old(nextFeedPostId))|
    {
      var p := posts[i].(title := title, body := body);
      ghost var after := AfterUpdatePost(Tables(), i, title, body, nextFeedPostId);
      UpdatePostConsistent(Tables(), i, title, body, nextPostId, nextSubscriptionId, nextFeedPostId);
      ghost var nextAfter := nextFeedPostId + |PostFanOut(subscriptions, p.id, p.blog, nextFeedPostId)|;
      assert Consistent(after, nextPostId, nextSubscriptionId, nextAfter);
      posts := posts[i := p];
      // post_after_save runs again: the created flag is not consulted
      var batch := PostFanOut(subscriptions, p.id, p.blog, nextFeedPostId);
      feedPosts := feedPosts + batch;
      nextFeedPostId := nextFeedPostId + |batch|;
      assert Tables() == after && nextFeedPostId == nextAfter;
      recipients := Recipients(users, subscriptions, p.blog);
    }

    /** Subscription.save() for a new subscription `s` with the next free id
        and a (blog, user) pair not yet subscribed, then
        subscription_after_save: one unread FeedPost per post of the followed
        blog, in title order. */
    method InsertSubscription(s: Subscription)
      requires Valid()
      requires s.id == nextSubscriptionId && s.blog in UserIds(users) && s.user in UserIds(users)
      requires forall t :: t in subscriptions ==> SubscriptionBlogUser(t) != SubscriptionBlogUser(s)
      modifies this
      ensures Valid()
      ensures Tables() == AfterCreateSubscription(old(Tables()), s, BlogPostsByTitle(posts, s.blog), old(nextFeedPostId))
      ensures nextPostId == old(nextPostId) && nextSubscriptionId == old(nextSubscriptionId) + 1
      ensures nextFeedPostId ==
        old(nextFeedPostId) + |SubscriptionFanOut(BlogPostsByTitle(posts, s.blog), s.id, old(nextFeedPostId))|
    {
      var blogPosts := BlogPostsByTitle(posts, s.blog);
      ghost var after := AfterCreateSubscription(Tables(), s, blogPosts, nextFeedPostId);
      CreateSubscriptionConsistent(Tables(), s, blogPosts, nextPostId, nextSubscriptionId, nextFeedPostId);
      ghost var nextAfter := nextFeedPostId + |SubscriptionFanOut(blogPosts, s.id, nextFeedPostId)|;
      assert Consistent(after, nextPostId, nextSubscriptionId + 1, nextAfter);
      subscriptions := subscriptions + [s];
      nextSubscriptionId := nextSubscriptionId + 1;
      // subscription_after_save: one FeedPost per post of the blog, in title order
      var batch := SubscriptionFanOut(blogPosts, s.id, nextFeedPostId);
      feedPosts := feedPosts + batch;
      nextFeedPostId := nextFeedPostId + |batch|;
      assert Tables() == after && nextFeedPostId == nextAfter;
    }

    /** PostCreateView: the form is checked, the post is saved on the blog of
        `current` at time `now` (unless its title is taken on that blog) and
        post_after_save fans it out; the result is the mail's recipients. */
    method CreatePost(current: UserId, title: string, body: string, now: int) returns (r: Result<seq<string>>)
      requires Valid() && current in UserIds(users)
      modifies this
      ensures Valid()
      ensures !PostFormValid(title, body) ==> r == Err(InvalidForm)
      ensures PostFormValid(title, body) && TitleTaken(old(posts), current, title, None) ==> r == Err(Conflict)
      ensures r.Ok? <==> PostFormValid(title, body) && !TitleTaken(old(posts), current, title, None)
      ensures r.Err? ==> Tables() == old(Tables()) && nextPostId == old(nextPostId) && nextFeedPostId == old(nextFeedPostId)
      ensures r.Ok? ==>
        var p := Post(old(nextPostId), now, current, title, body);
        Tables() == AfterCreatePost(old(Tables()), p, old(nextFeedPostId)) &&
        r.value == Recipients(users, subscriptions, current) &&
        nextPostId == old(nextPostId) + 1 &&
        nextFeedPostId == old(nextFeedPostId) + |PostFanOut(subscriptions, p.id, current, old(nextFeedPostId))|
      ensures nextSubscriptionId == old(nextSubscriptionId)
    {
      if !PostFormValid(title, body) {
        return Err(InvalidForm);
      }
      if TitleTaken(posts, current, title, None) {
        return Err(Conflict);
      }
      var recipients := InsertPost(Post(nextPostId, now, current, title, body));
      return Ok(recipients);
    }

    /** PostUpdateView: the post `pk` is looked up on the blog of `current`
        only, the form is checked, the new title and text are saved (unless
        the title is taken by another post of the blog) and post_after_save
        runs again for the post. */
    method UpdatePost(current: UserId, pk: PostId, title: string, body: string) returns (r: Result<seq<string>>)
      requires Valid()
      modifies this
      ensures Valid()
      ensures OwnedPost(old(posts), pk, current).None? ==> r == Err(NotFound)
      ensures OwnedPost(old(posts), pk, current).Some? && !PostFormValid(title, body) ==> r == Err(InvalidForm)
      ensures (OwnedPost(old(posts), pk, current).Some? && PostFormValid(title, body) &&
        TitleTaken(old(posts), current, title, Some(pk))) ==> r == Err(Conflict)
      ensures r.Ok? <==> (OwnedPost(old(posts), pk, current).Some? && PostFormValid(title, body) &&
        !TitleTaken(old(posts), current, title, Some(pk)))
      ensures r.Err? ==> Tables() == old(Tables()) && nextFeedPostId == old(nextFeedPostId)
      ensures r.Ok? ==>
        var i := OwnedPost(old(posts), pk, current).value;
        Tables() == AfterUpdatePost(old(Tables()), i, title, body, old(nextFeedPostId)) &&
        r.value == Recipients(users, subscriptions, current) &&
        nextFeedPostId == old(nextFeedPostId) + |PostFanOut(subscriptions, pk, current, old(nextFeedPostId))|
      ensures nextPostId == old(nextPostId) && nextSubscriptionId == old(nextSubscriptionId)
    {
      var found := OwnedPost(posts, pk, current);
      if found.None? {
        return Err(NotFound);
      }
      if !PostFormValid(title, body) {
        return Err(InvalidForm);
      }
      if TitleTaken(posts, current, title, Some(pk)) {
        return Err(Conflict);
      }
      var recipients := ResavePost(found.value, title, body);
      return Ok(recipients);
    }

    /** SubscriptionCreateView: `current` follows the blog `blogId`; the blog
        must be a user and the pair must be new, and subscription_after_save
        fans the blog's posts out to the new subscription. */
    method Subscribe(current: UserId, blogId: UserId) returns (r: Result<SubscriptionId>)
      requires Valid() && current in UserIds(users)
      modifies this
      ensures Valid()
      ensures blogId !in UserIds(old(users)) ==> r == Err(MissingReference)
      ensures blogId in UserIds(old(users)) && OwnSubscription(old(subscriptions), blogId, current).Some?
        ==> r == Err(Conflict)
      ensures r.Ok? <==> blogId in UserIds(old(users)) && OwnSubscription(old(subscriptions), blogId, current).None?
      ensures r.Err? ==> (Tables() == old(Tables()) && nextSubscriptionId == old(nextSubscriptionId) &&
        nextFeedPostId == old(nextFeedPostId))
      ensures r.Ok? ==>
        var s := Subscription(old(nextSubscriptionId), blogId, current);
        var blogPosts := BlogPostsByTitle(posts, blogId);
        r.value == s.id &&
        Tables() == AfterCreateSubscription(old(Tables()), s, blogPosts, old(nextFeedPostId)) &&
        nextSubscriptionId == old(nextSubscriptionId) + 1 &&
        nextFeedPostId == old(nextFeedPostId) + |SubscriptionFanOut(blogPosts, s.id, old(nextFeedPostId))|
      ensures nextPostId == old(nextPostId)
    {
      if blogId !in UserIds(users) {
        return Err(MissingReference);
      }
      if OwnSubscription(subscriptions, blogId, current).Some? {
        return Err(Conflict);
      }
      var s := Subscription(nextSubscriptionId, blogId, current);
      InsertSubscription(s);
      return Ok(s.id);
    }

    /** SubscriptionDeleteView: the subscription of `current` to `blogId` is
        deleted with the FeedPosts delivered through it. */
    method Unsubscribe(current: UserId, blogId: UserId) returns (r: Result<()>)
      requires Valid()
      modifies this
      ensures Valid()
      ensures r.Ok? <==> OwnSubscription(old(subscriptions), blogId, current).Some?
      ensures r.Err? ==> r.error == NotFound && Tables() == old(Tables())
      ensures r.Ok? ==>
        var i := OwnSubscription(old(subscriptions), blogId, current).value;
        Tables() == DeleteSubscription(old(Tables()), old(subscriptions)[i].id)
      ensures nextPostId == old(nextPostId) && nextSubscriptionId == old(nextSubscriptionId) &&
        nextFeedPostId == old(nextFeedPostId)
    {
      var found := OwnSubscription(subscriptions, blogId, current);
      if found.None? {
        return Err(NotFound);
      }
      var db := DeleteSubscription(Tables(), subscriptions[found.value].id);
      DeleteSubscriptionConsistent(Tables(), subscriptions[found.value].id, nextPostId, nextSubscriptionId, nextFeedPostId);
      subscriptions := db.subscriptions;
      feedPosts := db.feedPosts;
      return Ok(());
    }

    /** PostMakeReadView: the FeedPost `pk`, whoever's feed it is in, is
        flagged read. */
    method MakeRead(pk: FeedPostId) returns (r: Result<()>)
      requires Valid()
      modifies this
      ensures Valid()
      ensures r.Ok? <==> pk in FeedPostIds(old(feedPosts))
      ensures r.Err? ==> r.error == NotFound && Tables() == old(Tables())
      ensures r.Ok? ==> Tables() == old(Tables()).(feedPosts := RowsWithRead(old(feedPosts), pk))
      ensures nextPostId == old(nextPostId) && nextSubscriptionId == old(nextSubscriptionId) &&
        nextFeedPostId == old(nextFeedPostId)
    {
      var found := Find(feedPosts, (f: FeedPost) => f.id == pk);
      if found.None? {
        return Err(NotFound);
      }
      RowsWithReadConsistent(Tables(), pk, nextPostId, nextSubscriptionId, nextFeedPostId);
      feedPosts := RowsWithRead(feedPosts, pk);
      return Ok(());
    }

    /** PostDeleteView: the post `pk`, on any blog, is deleted with its
        FeedPosts. */
    method DeletePost(pk: PostId) returns (r: Result<()>)
      requires Valid()
      modifies this
      ensures Valid()
      ensures r.Ok? <==> pk in PostIds(old(posts))
      ensures r.Err? ==> r.error == NotFound && Tables() == old(Tables())
      ensures r.Ok? ==> Tables() == Models.DeletePost(old(Tables()), pk)
      ensures nextPostId == old(nextPostId) && nextSubscriptionId == old(nextSubscriptionId) &&
        nextFeedPostId == old(nextFeedPostId)
    {
      var found := Find(posts, (p: Post) => p.id == pk);
      if found.None? {
        return Err(NotFound);
      }
      var db := Models.DeletePost(Tables(), pk);
      DeletePostConsistent(Tables(), pk, nextPostId, nextSubscriptionId, nextFeedPostId);
      posts := db.posts;
      feedPosts := db.feedPosts;
      return Ok(());
    }

    /** BlogList.get_queryset as written: the users, the most recently joined
        first, with the flag set on each entry in a loop. */
    method ListBlogs(current: UserId) returns (blogs: seq<BlogEntry>)
      ensures blogs == BlogList(users, subscriptions, current)
    {
      var followed := FollowedBlogs(subscriptions, current);
      var ordered := UsersByJoined(users);
      blogs := [];
      var i := 0;
      while i < |ordered|
        invariant 0 <= i <= |ordered|
        invariant |blogs| == i
        invariant forall k :: 0 <= k < i ==>
          blogs[k] == BlogEntry(ordered[k].id, ordered[k].username, ordered[k].id in followed)
      {
        blogs := blogs + [BlogEntry(ordered[i].id, ordered[i].username, ordered[i].id in followed)];
        i := i + 1;
      }
    }
  }
}
