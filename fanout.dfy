/** The feed fan-out of blog/views.py: the rows that the two post_save
    handlers bulk-create, the recipient list of the notification mail, and the
    two invariants the handlers keep between the tables: every FeedPost joins
    a post to a subscription of the same blog (FeedSound), and every such pair
    has a FeedPost (FeedComplete). Nothing here prevents a pair from having
    two FeedPosts: see ResaveDuplicates. */
module FanOut {
  import opened Collections
  import opened Models

  /** The subscriptions to `blog`, in table order (the handler's query has
      no ORDER BY). */
  function Followers(subs: seq<Subscription>, blog: UserId): seq<Subscription>
  {
    Filter(subs, (s: Subscription) => s.blog == blog)
  }

  /** The posts of `blog`, in table order. */
  function PostsOfBlog(posts: seq<Post>, blog: UserId): seq<Post>
  {
    Filter(posts, (q: Post) => q.blog == blog)
  }

  /** The posts of `blog` in the default order of the Post model (title):
      what subscription_after_save's query returns. */
  function BlogPostsByTitle(posts: seq<Post>, blog: UserId): (r: seq<Post>)
    ensures multiset(r) == multiset(PostsOfBlog(posts, blog))
    ensures forall i, j :: 0 <= i < j < |r| ==> TitleLe(r[i].title, r[j].title)
  {
    PostsByTitle(PostsOfBlog(posts, blog))
  }

  /** The batch post_after_save creates for the post `postId` of `blog`: one
      unread FeedPost per subscription to the blog, numbered from `firstId`. */
  function PostFanOut(subs: seq<Subscription>, postId: PostId, blog: UserId, firstId: FeedPostId): (r: seq<FeedPost>)
    ensures |r| == |Followers(subs, blog)|
    ensures forall f :: f in r ==> f.post == postId && !f.isRead
  {
    var followers := Followers(subs, blog);
    seq(|followers|, i requires 0 <= i < |followers| => FeedPost(firstId + i, postId, followers[i].id, false))
  }

  /** The batch subscription_after_save creates for the subscription `subId`
      from the posts its query returned (`blogPosts`, see BlogPostsByTitle):
      one unread FeedPost per post, in that order, numbered from `firstId`. */
  function SubscriptionFanOut(blogPosts: seq<Post>, subId: SubscriptionId, firstId: FeedPostId): (r: seq<FeedPost>)
    ensures |r| == |blogPosts|
    ensures forall f :: f in r ==> f.subscription == subId && !f.isRead
  {
    seq(|blogPosts|, i requires 0 <= i < |blogPosts| => FeedPost(firstId + i, blogPosts[i].id, subId, false))
  }

  /** The recipient list of the mail sent for a new post of `blog`: the
      addresses of the users, in user-table order, who follow the blog. */
  function Recipients(users: seq<User>, subs: seq<Subscription>, blog: UserId): (r: seq<string>)
    ensures forall e :: e in r <==>
      exists u :: u in users && u.email == e && exists s :: s in subs && s.blog == blog && s.user == u.id
  {
    var subscriberIds := set s | s in subs && s.blog == blog :: s.user;
    var recipients := Filter(users, (u: User) => u.id in subscriberIds);
    var r := seq(|recipients|, i requires 0 <= i < |recipients| => recipients[i].email);
    forall e | e in r
      ensures exists u :: u in users && u.email == e && exists s :: s in subs && s.blog == blog && s.user == u.id
    {
      var k :| 0 <= k < |r| && r[k] == e;
      var u := recipients[k];
      assert u in recipients && u.id in subscriberIds;
    }
    forall u | u in users && exists s :: s in subs && s.blog == blog && s.user == u.id
      ensures u.email in r
    {
      var s :| s in subs && s.blog == blog && s.user == u.id;
      assert u.id in subscriberIds && u in recipients;
      var k :| 0 <= k < |recipients| && recipients[k] == u;
      assert r[k] == u.email;
    }
    r
  }

  /** Exactly one row of `rows` joins `postId` to `subId`. */
  ghost predicate HasUniqueRow(rows: seq<FeedPost>, postId: PostId, subId: SubscriptionId)
  {
    exists i :: 0 <= i < |rows| && rows[i].post == postId && rows[i].subscription == subId &&
      forall j :: 0 <= j < |rows| && rows[j].post == postId && rows[j].subscription == subId ==> j == i
  }

  /** post_after_save adds, for every subscription to the post's blog, exactly
      one FeedPost, and nothing for any other subscription; every row added is
      unread and carries a new id above all ids in use. */
  lemma PostFanOutExactlyOne(subs: seq<Subscription>, postId: PostId, blog: UserId, firstId: FeedPostId)
    requires UniqueBy(subs, SubscriptionPk)
    ensures forall s :: s in subs && s.blog == blog ==>
      HasUniqueRow(PostFanOut(subs, postId, blog, firstId), postId, s.id)
    ensures forall f :: f in PostFanOut(subs, postId, blog, firstId) ==>
      f.post == postId && !f.isRead && firstId <= f.id < firstId + |PostFanOut(subs, postId, blog, firstId)| &&
      exists s :: s in subs && s.blog == blog && s.id == f.subscription
    ensures UniqueBy(PostFanOut(subs, postId, blog, firstId), FeedPostPk)
  {
    var followers := Followers(subs, blog);
    var rows := PostFanOut(subs, postId, blog, firstId);
    UniqueBySubMultiset(subs, followers, SubscriptionPk);
    forall s | s in subs && s.blog == blog ensures HasUniqueRow(rows, postId, s.id) {
      assert s in followers;
      var i :| 0 <= i < |followers| && followers[i] == s;
      forall j | 0 <= j < |rows| && rows[j].post == postId && rows[j].subscription == s.id ensures j == i {
        if j < i {
          UniqueKeysDistinct(followers, SubscriptionPk, j, i);
        } else if i < j {
          UniqueKeysDistinct(followers, SubscriptionPk, i, j);
        }
      }
      assert rows[i].post == postId && rows[i].subscription == s.id;
    }
    forall f | f in rows ensures exists s :: s in subs && s.blog == blog && s.id == f.subscription {
      var k :| 0 <= k < |rows| && rows[k] == f;
      assert followers[k] in followers;
    }
    DistinctKeysUnique(rows, FeedPostPk);
  }

  /** subscription_after_save adds, for every post of the followed blog,
      exactly one FeedPost, and nothing for any other post; every row added is
      unread and carries a new id above all ids in use. */
  lemma SubscriptionFanOutExactlyOne(posts: seq<Post>, blogPosts: seq<Post>, s: Subscription, firstId: FeedPostId)
    requires UniqueBy(posts, PostPk)
    requires multiset(blogPosts) == multiset(PostsOfBlog(posts, s.blog))
    ensures forall p :: p in posts && p.blog == s.blog ==>
      HasUniqueRow(SubscriptionFanOut(blogPosts, s.id, firstId), p.id, s.id)
    ensures forall f :: f in SubscriptionFanOut(blogPosts, s.id, firstId) ==>
      f.subscription == s.id && !f.isRead && firstId <= f.id < firstId + |SubscriptionFanOut(blogPosts, s.id, firstId)| &&
      exists p :: p in posts && p.blog == s.blog && p.id == f.post
    ensures UniqueBy(SubscriptionFanOut(blogPosts, s.id, firstId), FeedPostPk)
  {
    var rows := SubscriptionFanOut(blogPosts, s.id, firstId);
    var filtered := PostsOfBlog(posts, s.blog);
    UniqueBySubMultiset(posts, filtered, PostPk);
    UniqueBySubMultiset(filtered, blogPosts, PostPk);
    forall p | p in posts && p.blog == s.blog ensures HasUniqueRow(rows, p.id, s.id) {
      assert p in filtered;
      assert p in multiset(blogPosts);
      var i :| 0 <= i < |blogPosts| && blogPosts[i] == p;
      forall j | 0 <= j < |rows| && rows[j].post == p.id && rows[j].subscription == s.id ensures j == i {
        if j < i {
          UniqueKeysDistinct(blogPosts, PostPk, j, i);
        } else if i < j {
          UniqueKeysDistinct(blogPosts, PostPk, i, j);
        }
      }
      assert rows[i].post == p.id && rows[i].subscription == s.id;
    }
    forall f | f in rows ensures exists p :: p in posts && p.blog == s.blog && p.id == f.post {
      var k :| 0 <= k < |rows| && rows[k] == f;
      assert blogPosts[k] in multiset(blogPosts);
      assert blogPosts[k] in filtered;
    }
    DistinctKeysUnique(rows, FeedPostPk);
  }

  // ---- invariants linking FeedPost to Post and Subscription ----

  /** Every FeedPost joins a post to a subscription of that post's blog. */
  ghost predicate FeedSound(db: Db)
  {
    forall f :: f in db.feedPosts ==>
      forall p, s :: p in db.posts && s in db.subscriptions && p.id == f.post && s.id == f.subscription ==>
        p.blog == s.blog
  }

  /** Every post has a FeedPost for every subscription to its blog. */
  ghost predicate FeedComplete(db: Db)
  {
    forall p, s :: p in db.posts && s in db.subscriptions && p.blog == s.blog ==>
      exists f :: f in db.feedPosts && f.post == p.id && f.subscription == s.id
  }

  /** No id of `rows` is `firstId` or above. */
  ghost predicate IdsBelow(rows: seq<FeedPost>, firstId: FeedPostId)
  {
    forall f :: f in rows ==> f.id < firstId
  }

  /** A batch numbered from the next free id leaves every id below the next
      free id after it. */
  lemma BatchIdsBelow(rows: seq<FeedPost>, batch: seq<FeedPost>, firstId: FeedPostId)
    requires IdsBelow(rows, firstId)
    requires forall i :: 0 <= i < |batch| ==> batch[i].id == firstId + i
    ensures IdsBelow(rows + batch, firstId + |batch|)
  {
  }

  /** The tables after a new post `p` is saved and post_after_save has run. */
  function AfterCreatePost(db: Db, p: Post, firstId: FeedPostId): Db
  {
    db.(posts := db.posts + [p],
        feedPosts := db.feedPosts + PostFanOut(db.subscriptions, p.id, p.blog, firstId))
  }

  /** The tables after a new subscription `s` is saved and
      subscription_after_save has run. */
  function AfterCreateSubscription(db: Db, s: Subscription, blogPosts: seq<Post>, firstId: FeedPostId): Db
  {
    db.(subscriptions := db.subscriptions + [s],
        feedPosts := db.feedPosts + SubscriptionFanOut(blogPosts, s.id, firstId))
  }

  /** The tables after post `i` is saved again with a new title and text and
      post_after_save has run once more. */
  function AfterUpdatePost(db: Db, i: nat, title: string, body: string, firstId: FeedPostId): (r: Db)
    requires i < |db.posts|
    ensures r.users == db.users && r.subscriptions == db.subscriptions
    ensures |r.posts| == |db.posts|
    ensures |r.feedPosts| == |db.feedPosts| + |Followers(db.subscriptions, db.posts[i].blog)|
  {
    var p := db.posts[i];
    db.(posts := db.posts[i := p.(title := title, body := body)],
        feedPosts := db.feedPosts + PostFanOut(db.subscriptions, p.id, p.blog, firstId))
  }

  /** Saving a new post and running post_after_save keeps the database valid
      and both feed invariants. */
  lemma CreatePostKeepsInvariants(db: Db, p: Post, firstId: FeedPostId)
    requires Valid(db) && FeedSound(db) && FeedComplete(db) && IdsBelow(db.feedPosts, firstId)
    requires p.id !in PostIds(db.posts) && p.blog in UserIds(db.users)
    requires forall q :: q in db.posts ==> PostBlogTitle(q) != PostBlogTitle(p)
    ensures Valid(AfterCreatePost(db, p, firstId))
    ensures FeedSound(AfterCreatePost(db, p, firstId))
    ensures FeedComplete(AfterCreatePost(db, p, firstId))
  {
    PostFanOutExactlyOne(db.subscriptions, p.id, p.blog, firstId);
    CreatePostValid(db, p, firstId);
    CreatePostSound(db, p, firstId);
    CreatePostComplete(db, p, firstId);
  }

  lemma CreatePostValid(db: Db, p: Post, firstId: FeedPostId)
    requires Valid(db) && IdsBelow(db.feedPosts, firstId)
    requires p.id !in PostIds(db.posts) && p.blog in UserIds(db.users)
    requires forall q :: q in db.posts ==> PostBlogTitle(q) != PostBlogTitle(p)
    ensures Valid(AfterCreatePost(db, p, firstId))
  {
    var rows := PostFanOut(db.subscriptions, p.id, p.blog, firstId);
    var db' := AfterCreatePost(db, p, firstId);
    PostFanOutExactlyOne(db.subscriptions, p.id, p.blog, firstId);
    UniqueByAppend(db.posts, p, PostPk);
    UniqueByAppend(db.posts, p, PostBlogTitle);
    UniqueByConcat(db.feedPosts, rows, FeedPostPk);
    forall f | f in db'.feedPosts
      ensures f.post in PostIds(db'.posts) && f.subscription in SubscriptionIds(db'.subscriptions)
    {
      if f in rows {
        assert p in db'.posts;
      } else {
        var q :| q in db.posts && q.id == f.post;
        assert q in db'.posts;
      }
    }
  }

  lemma CreatePostSound(db: Db, p: Post, firstId: FeedPostId)
    requires Valid(db) && FeedSound(db)
    requires p.id !in PostIds(db.posts)
    ensures FeedSound(AfterCreatePost(db, p, firstId))
  {
    var rows := PostFanOut(db.subscriptions, p.id, p.blog, firstId);
    var db' := AfterCreatePost(db, p, firstId);
    PostFanOutExactlyOne(db.subscriptions, p.id, p.blog, firstId);
    forall f, q, s | f in db'.feedPosts && q in db'.posts && s in db'.subscriptions &&
      q.id == f.post && s.id == f.subscription
      ensures q.blog == s.blog
    {
      if f in rows {
        var s0 :| s0 in db.subscriptions && s0.blog == p.blog && s0.id == f.subscription;
        UniqueKeysSame(db.subscriptions, SubscriptionPk, s0, s);
        assert q.id !in PostIds(db.posts);
        assert q == p;
      } else {
        assert f.post in PostIds(db.posts);
        assert q in db.posts;
      }
    }
  }

  lemma CreatePostComplete(db: Db, p: Post, firstId: FeedPostId)
    requires UniqueBy(db.subscriptions, SubscriptionPk) && FeedComplete(db)
    ensures FeedComplete(AfterCreatePost(db, p, firstId))
  {
    var rows := PostFanOut(db.subscriptions, p.id, p.blog, firstId);
    var db' := AfterCreatePost(db, p, firstId);
    PostFanOutExactlyOne(db.subscriptions, p.id, p.blog, firstId);
    forall q, s | q in db'.posts && s in db'.subscriptions && q.blog == s.blog
      ensures exists f :: f in db'.feedPosts && f.post == q.id && f.subscription == s.id
    {
      if q == p {
        assert HasUniqueRow(rows, q.id, s.id);
        var i :| 0 <= i < |rows| && rows[i].post == q.id && rows[i].subscription == s.id;
        assert rows[i] in db'.feedPosts;
      } else {
        var f :| f in db.feedPosts && f.post == q.id && f.subscription == s.id;
        assert f in db'.feedPosts;
      }
    }
  }

  /** Saving a new subscription and running subscription_after_save keeps the
      database valid and both feed invariants. */
  lemma CreateSubscriptionKeepsInvariants(db: Db, s: Subscription, blogPosts: seq<Post>, firstId: FeedPostId)
    requires multiset(blogPosts) == multiset(PostsOfBlog(db.posts, s.blog))
    requires Valid(db) && FeedSound(db) && FeedComplete(db) && IdsBelow(db.feedPosts, firstId)
    requires s.id !in SubscriptionIds(db.subscriptions)
    requires s.blog in UserIds(db.users) && s.user in UserIds(db.users)
    requires forall t :: t in db.subscriptions ==> SubscriptionBlogUser(t) != SubscriptionBlogUser(s)
    ensures Valid(AfterCreateSubscription(db, s, blogPosts, firstId))
    ensures FeedSound(AfterCreateSubscription(db, s, blogPosts, firstId))
    ensures FeedComplete(AfterCreateSubscription(db, s, blogPosts, firstId))
  {
    CreateSubscriptionValid(db, s, blogPosts, firstId);
    CreateSubscriptionSound(db, s, blogPosts, firstId);
    CreateSubscriptionComplete(db, s, blogPosts, firstId);
  }

  lemma CreateSubscriptionValid(db: Db, s: Subscription, blogPosts: seq<Post>, firstId: FeedPostId)
    requires multiset(blogPosts) == multiset(PostsOfBlog(db.posts, s.blog))
    requires Valid(db) && IdsBelow(db.feedPosts, firstId)
    requires s.id !in SubscriptionIds(db.subscriptions)
    requires s.blog in UserIds(db.users) && s.user in UserIds(db.users)
    requires forall t :: t in db.subscriptions ==> SubscriptionBlogUser(t) != SubscriptionBlogUser(s)
    ensures Valid(AfterCreateSubscription(db, s, blogPosts, firstId))
  {
    var rows := SubscriptionFanOut(blogPosts, s.id, firstId);
    var db' := AfterCreateSubscription(db, s, blogPosts, firstId);
    SubscriptionFanOutExactlyOne(db.posts, blogPosts, s, firstId);
    UniqueByAppend(db.subscriptions, s, SubscriptionPk);
    UniqueByAppend(db.subscriptions, s, SubscriptionBlogUser);
    UniqueByConcat(db.feedPosts, rows, FeedPostPk);
    forall f | f in db'.feedPosts
      ensures f.post in PostIds(db'.posts) && f.subscription in SubscriptionIds(db'.subscriptions)
    {
      if f in rows {
        assert s in db'.subscriptions;
      } else {
        var t :| t in db.subscriptions && t.id == f.subscription;
        assert t in db'.subscriptions;
      }
    }
  }

  lemma CreateSubscriptionSound(db: Db, s: Subscription, blogPosts: seq<Post>, firstId: FeedPostId)
    requires multiset(blogPosts) == multiset(PostsOfBlog(db.posts, s.blog))
    requires Valid(db) && FeedSound(db)
    requires s.id !in SubscriptionIds(db.subscriptions)
    ensures FeedSound(AfterCreateSubscription(db, s, blogPosts, firstId))
  {
    var rows := SubscriptionFanOut(blogPosts, s.id, firstId);
    var db' := AfterCreateSubscription(db, s, blogPosts, firstId);
    SubscriptionFanOutExactlyOne(db.posts, blogPosts, s, firstId);
    forall f, q, t | f in db'.feedPosts && q in db'.posts && t in db'.subscriptions &&
      q.id == f.post && t.id == f.subscription
      ensures q.blog == t.blog
    {
      if f in rows {
        var q0 :| q0 in db.posts && q0.blog == s.blog && q0.id == f.post;
        UniqueKeysSame(db.posts, PostPk, q0, q);
        assert t.id !in SubscriptionIds(db.subscriptions);
        assert t == s;
      } else {
        assert f.subscription in SubscriptionIds(db.subscriptions);
        assert t in db.subscriptions;
      }
    }
  }

  lemma CreateSubscriptionComplete(db: Db, s: Subscription, blogPosts: seq<Post>, firstId: FeedPostId)
    requires multiset(blogPosts) == multiset(PostsOfBlog(db.posts, s.blog))
    requires UniqueBy(db.posts, PostPk) && FeedComplete(db)
    ensures FeedComplete(AfterCreateSubscription(db, s, blogPosts, firstId))
  {
    var rows := SubscriptionFanOut(blogPosts, s.id, firstId);
    var db' := AfterCreateSubscription(db, s, blogPosts, firstId);
    forall q, t | q in db'.posts && t in db'.subscriptions && q.blog == t.blog
      ensures exists f :: f in db'.feedPosts && f.post == q.id && f.subscription == t.id
    {
      if t == s {
        SubscriptionFanOutExactlyOne(db.posts, blogPosts, s, firstId);
        NewRowFor(rows, db.feedPosts, q.id, t.id);
      } else {
        assert t in db.subscriptions;
        var f :| f in db.feedPosts && f.post == q.id && f.subscription == t.id;
        assert f in db'.feedPosts;
      }
    }
  }

  lemma NewRowFor(rows: seq<FeedPost>, before: seq<FeedPost>, postId: PostId, subId: SubscriptionId)
    requires HasUniqueRow(rows, postId, subId)
    ensures exists f :: f in before + rows && f.post == postId && f.subscription == subId
  {
    var i :| 0 <= i < |rows| && rows[i].post == postId && rows[i].subscription == subId;
    assert rows[i] in before + rows;
  }

  /** Saving an existing post again (the update view) rewrites its title and
      text and, because the handler does not look at whether the row was
      created, runs post_after_save once more; the invariants still hold. */
  lemma UpdatePostKeepsInvariants(db: Db, i: nat, title: string, body: string, firstId: FeedPostId)
    requires Valid(db) && FeedSound(db) && FeedComplete(db) && IdsBelow(db.feedPosts, firstId)
    requires i < |db.posts|
    requires forall q :: q in db.posts && q.id != db.posts[i].id ==> PostBlogTitle(q) != (db.posts[i].blog, title)
    ensures Valid(AfterUpdatePost(db, i, title, body, firstId))
    ensures FeedSound(AfterUpdatePost(db, i, title, body, firstId))
    ensures FeedComplete(AfterUpdatePost(db, i, title, body, firstId))
  {
    UpdatePostValid(db, i, title, body, firstId);
    UpdatePostSound(db, i, title, body, firstId);
    UpdatePostComplete(db, i, title, body, firstId);
  }

  lemma UpdatePostValid(db: Db, i: nat, title: string, body: string, firstId: FeedPostId)
    requires Valid(db) && IdsBelow(db.feedPosts, firstId)
    requires i < |db.posts|
    requires forall q :: q in db.posts && q.id != db.posts[i].id ==> PostBlogTitle(q) != (db.posts[i].blog, title)
    ensures Valid(AfterUpdatePost(db, i, title, body, firstId))
  {
    var p := db.posts[i];
    BatchKeysUnique(db.feedPosts, PostFanOut(db.subscriptions, p.id, p.blog, firstId), firstId);
    UpdatePostUnique(db.posts, i, title, body);
    UpdatePostReferences(db, i, title, body, firstId);
  }

  /** A batch numbered from the next free id keeps the FeedPost key unique. */
  lemma BatchKeysUnique(rows: seq<FeedPost>, batch: seq<FeedPost>, firstId: FeedPostId)
    requires UniqueBy(rows, FeedPostPk) && IdsBelow(rows, firstId)
    requires forall k :: 0 <= k < |batch| ==> batch[k].id == firstId + k
    ensures UniqueBy(rows + batch, FeedPostPk)
  {
    DistinctKeysUnique(batch, FeedPostPk);
    forall a, b | a in rows && b in batch ensures FeedPostPk(a) != FeedPostPk(b) {
      var k :| 0 <= k < |batch| && batch[k] == b;
    }
    UniqueByConcat(rows, batch, FeedPostPk);
  }

  /** Saving post `i` again and fanning it out again keeps every foreign key
      pointing at an existing row. */
  lemma UpdatePostReferences(db: Db, i: nat, title: string, body: string, firstId: FeedPostId)
    requires References(db)
    requires i < |db.posts|
    ensures References(AfterUpdatePost(db, i, title, body, firstId))
  {
    var p := db.posts[i];
    var p' := p.(title := title, body := body);
    var rows := PostFanOut(db.subscriptions, p.id, p.blog, firstId);
    ReplaceKeepsBlogsAndIds(db.posts, i, p', UserIds(db.users));
    PostFanOutReferences(db.subscriptions, p.id, p.blog, firstId);
    assert AfterUpdatePost(db, i, title, body, firstId) == db.(posts := db.posts[i := p'], feedPosts := db.feedPosts + rows);
  }

  /** Rewriting a post in place with the same id and blog keeps the set of
      post ids and every post's blog among `blogs`. */
  lemma ReplaceKeepsBlogsAndIds(posts: seq<Post>, i: nat, p': Post, blogs: set<UserId>)
    requires i < |posts| && p'.id == posts[i].id && p'.blog == posts[i].blog
    requires forall q :: q in posts ==> q.blog in blogs
    ensures forall q :: q in posts[i := p'] ==> q.blog in blogs
    ensures PostIds(posts[i := p']) == PostIds(posts)
  {
    var r := posts[i := p'];
    forall q | q in r ensures q.blog in blogs && q.id in PostIds(posts) {
      var j :| 0 <= j < |r| && r[j] == q;
      assert posts[j] in posts;
    }
    forall x | x in PostIds(posts) ensures x in PostIds(r) {
      var j :| 0 <= j < |posts| && posts[j].id == x by {
        var q :| q in posts && q.id == x;
      }
      assert r[j] in r;
    }
  }

  /** Every row post_after_save creates points at the post and at an
      existing subscription. */
  lemma PostFanOutReferences(subs: seq<Subscription>, postId: PostId, blog: UserId, firstId: FeedPostId)
    ensures forall f :: f in PostFanOut(subs, postId, blog, firstId) ==> f.post == postId && f.subscription in SubscriptionIds(subs)
  {
    var followers := Followers(subs, blog);
    var rows := PostFanOut(subs, postId, blog, firstId);
    forall f | f in rows ensures f.subscription in SubscriptionIds(subs) {
      var k :| 0 <= k < |rows| && rows[k] == f;
      assert followers[k] in followers;
    }
  }

  lemma UpdatePostSound(db: Db, i: nat, title: string, body: string, firstId: FeedPostId)
    requires Valid(db) && FeedSound(db)
    requires i < |db.posts|
    ensures FeedSound(AfterUpdatePost(db, i, title, body, firstId))
  {
    var p := db.posts[i];
    var p' := p.(title := title, body := body);
    var rows := PostFanOut(db.subscriptions, p.id, p.blog, firstId);
    var db' := AfterUpdatePost(db, i, title, body, firstId);
    PostFanOutExactlyOne(db.subscriptions, p.id, p.blog, firstId);
    ReplaceAtMembers(db.posts, i, p');
    forall f, q, s | f in db'.feedPosts && q in db'.posts && s in db'.subscriptions &&
      q.id == f.post && s.id == f.subscription
      ensures q.blog == s.blog
    {
      var q0 := if q == p' then p else q;
      assert q0 in db.posts && q0.id == q.id && q0.blog == q.blog;
      if f in rows {
        var s0 :| s0 in db.subscriptions && s0.blog == p.blog && s0.id == f.subscription;
        UniqueKeysSame(db.subscriptions, SubscriptionPk, s0, s);
        UniqueKeysSame(db.posts, PostPk, q0, p);
      }
    }
  }

  lemma UpdatePostComplete(db: Db, i: nat, title: string, body: string, firstId: FeedPostId)
    requires UniqueBy(db.posts, PostPk) && FeedComplete(db)
    requires i < |db.posts|
    ensures FeedComplete(AfterUpdatePost(db, i, title, body, firstId))
  {
    var p := db.posts[i];
    var p' := p.(title := title, body := body);
    var db' := AfterUpdatePost(db, i, title, body, firstId);
    ReplaceAtMembers(db.posts, i, p');
    forall q, s | q in db'.posts && s in db'.subscriptions && q.blog == s.blog
      ensures exists f :: f in db'.feedPosts && f.post == q.id && f.subscription == s.id
    {
      var q0 := if q == p' then p else q;
      assert q0 in db.posts && q0.id == q.id && q0.blog == q.blog;
      var f :| f in db.feedPosts && f.post == q0.id && f.subscription == s.id;
      assert f in db'.feedPosts;
    }
  }

  /** Rewriting the title of post `i` keeps the keys of the post table unique
      when no other post of the blog has that title. */
  lemma UpdatePostUnique(posts: seq<Post>, i: nat, title: string, body: string)
    requires UniqueBy(posts, PostPk) && UniqueBy(posts, PostBlogTitle)
    requires i < |posts|
    requires forall q :: q in posts && q.id != posts[i].id ==> PostBlogTitle(q) != (posts[i].blog, title)
    ensures UniqueBy(posts[i := posts[i].(title := title, body := body)], PostPk)
    ensures UniqueBy(posts[i := posts[i].(title := title, body := body)], PostBlogTitle)
  {
    var r := posts[i := posts[i].(title := title, body := body)];
    forall a, b | 0 <= a < b < |r| ensures PostPk(r[a]) != PostPk(r[b]) && PostBlogTitle(r[a]) != PostBlogTitle(r[b]) {
      UniqueKeysDistinct(posts, PostPk, a, b);
      if a != i && b != i {
        UniqueKeysDistinct(posts, PostBlogTitle, a, b);
      }
    }
    DistinctKeysUnique(r, PostPk);
    DistinctKeysUnique(r, PostBlogTitle);
  }

  /** Saving a post again changes its title and text only: the row with its
      id is still the one at the same position, and its blog and time of
      creation (auto_now_add) stay. */
  lemma ResaveKeepsCreated(db: Db, i: nat, title: string, body: string, firstId: FeedPostId)
    requires UniqueBy(db.posts, PostPk) && i < |db.posts|
    ensures var after := AfterUpdatePost(db, i, title, body, firstId).posts;
      |after| == |db.posts| && after[i].id == db.posts[i].id &&
      forall j :: 0 <= j < |after| && after[j].id == db.posts[i].id ==>
        j == i && after[j].created == db.posts[i].created && after[j].blog == db.posts[i].blog &&
        after[j].title == title && after[j].body == body
  {
    var after := AfterUpdatePost(db, i, title, body, firstId).posts;
    forall j | 0 <= j < |after| && j != i ensures after[j].id != db.posts[i].id {
      if j < i { UniqueKeysDistinct(db.posts, PostPk, j, i); } else { UniqueKeysDistinct(db.posts, PostPk, i, j); }
    }
  }

  /** A fan-out batch for a post appended to a table that already joins that
      post to `s` gives the pair a second row with a different id. */
  lemma SecondBatchDuplicates(db: Db, p: Post, s: Subscription, firstId: FeedPostId)
    requires FeedComplete(db) && IdsBelow(db.feedPosts, firstId)
    requires UniqueBy(db.subscriptions, SubscriptionPk)
    requires p in db.posts && s in db.subscriptions && s.blog == p.blog
    ensures var rows := db.feedPosts + PostFanOut(db.subscriptions, p.id, p.blog, firstId);
      exists f, g :: f in rows && g in rows && f.id != g.id &&
        f.post == p.id && g.post == p.id && f.subscription == s.id && g.subscription == s.id
  {
    var added := PostFanOut(db.subscriptions, p.id, p.blog, firstId);
    PostFanOutExactlyOne(db.subscriptions, p.id, p.blog, firstId);
    var f :| f in db.feedPosts && f.post == p.id && f.subscription == s.id;
    var k :| 0 <= k < |added| && added[k].post == p.id && added[k].subscription == s.id;
    var g := added[k];
    assert f.id < firstId <= g.id;
    assert f in db.feedPosts + added && g in db.feedPosts + added;
  }

  /** The store keeps no guard against a second FeedPost for the same pair:
      saving an existing post of a followed blog again (the update view) adds
      a second row joining that post to each of its blog's subscriptions. */
  lemma ResaveDuplicates(db: Db, i: nat, title: string, body: string, s: Subscription, firstId: FeedPostId)
    requires FeedComplete(db) && IdsBelow(db.feedPosts, firstId)
    requires UniqueBy(db.subscriptions, SubscriptionPk)
    requires i < |db.posts| && s in db.subscriptions && s.blog == db.posts[i].blog
    ensures var rows := AfterUpdatePost(db, i, title, body, firstId).feedPosts;
      exists f, g :: f in rows && g in rows && f.id != g.id &&
        f.post == db.posts[i].id && g.post == db.posts[i].id &&
        f.subscription == s.id && g.subscription == s.id
  {
    SecondBatchDuplicates(db, db.posts[i], s, firstId);
  }

  // ---- cascades keep the feed invariants ----

  /** Deleting a post, with its FeedPosts, keeps both feed invariants. */
  lemma DeletePostKeepsFeed(db: Db, pk: PostId)
    requires FeedSound(db) && FeedComplete(db)
    ensures FeedSound(DeletePost(db, pk)) && FeedComplete(DeletePost(db, pk))
  {
    var r := DeletePost(db, pk);
    forall q, s | q in r.posts && s in r.subscriptions && q.blog == s.blog
      ensures exists f :: f in r.feedPosts && f.post == q.id && f.subscription == s.id
    {
      var f :| f in db.feedPosts && f.post == q.id && f.subscription == s.id;
      assert f in r.feedPosts;
    }
  }

  /** Deleting a subscription, with its FeedPosts, keeps both feed invariants. */
  lemma DeleteSubscriptionKeepsFeed(db: Db, pk: SubscriptionId)
    requires FeedSound(db) && FeedComplete(db)
    ensures FeedSound(DeleteSubscription(db, pk)) && FeedComplete(DeleteSubscription(db, pk))
  {
    var r := DeleteSubscription(db, pk);
    forall q, s | q in r.posts && s in r.subscriptions && q.blog == s.blog
      ensures exists f :: f in r.feedPosts && f.post == q.id && f.subscription == s.id
    {
      var f :| f in db.feedPosts && f.post == q.id && f.subscription == s.id;
      assert f in r.feedPosts;
    }
  }

  /** Deleting a user, with the rows that cascade from it, keeps both feed
      invariants; the surviving rows keep their FeedPosts because ids are
      unique. */
  lemma DeleteUserKeepsFeed(db: Db, uid: UserId)
    requires Valid(db) && FeedSound(db) && FeedComplete(db)
    ensures FeedSound(DeleteUser(db, uid)) && FeedComplete(DeleteUser(db, uid))
  {
    var r := DeleteUser(db, uid);
    forall q, s | q in r.posts && s in r.subscriptions && q.blog == s.blog
      ensures exists f :: f in r.feedPosts && f.post == q.id && f.subscription == s.id
    {
      var f :| f in db.feedPosts && f.post == q.id && f.subscription == s.id;
      forall q' | q' in db.posts && q'.blog == uid ensures q'.id != q.id {
        if q'.id == q.id { UniqueKeysSame(db.posts, PostPk, q, q'); }
      }
      forall s' | s' in db.subscriptions && (s'.blog == uid || s'.user == uid) ensures s'.id != s.id {
        if s'.id == s.id { UniqueKeysSame(db.subscriptions, SubscriptionPk, s, s'); }
      }
      assert f in r.feedPosts;
    }
  }
}
