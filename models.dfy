/** The three tables of the blog application (blog/models.py) and the user
    table they point to, as rows held in sequences. The database's guarantees
    are stated as predicates: primary keys, the two unique_together
    constraints and the foreign keys; deleting a row is modelled with the
    cascades that on_delete=CASCADE performs. */
module Models {
  import opened Collections

  type UserId = nat
  type PostId = nat
  type SubscriptionId = nat
  type FeedPostId = nat

  /** The fields of the authentication user model that the views read. A user
      is also a blog: a Post's `blog` is its author. */
  datatype User = User(id: UserId, username: string, email: string, dateJoined: int)

  /** A post. `created` is the timestamp given on the first save and never
      rewritten; `body` is the text field the model calls `post`. */
  datatype Post = Post(id: PostId, created: int, blog: UserId, title: string, body: string)

  /** `user` follows the blog `blog`. */
  datatype Subscription = Subscription(id: SubscriptionId, blog: UserId, user: UserId)

  /** One post delivered into one subscriber's feed.
      The model class declares the fields `post` and `user`, but every query
      and every row the views build uses `post`, `subscription` and `is_read`;
      this is the shape the views rely on and the one kept here. */
  datatype FeedPost = FeedPost(id: FeedPostId, post: PostId, subscription: SubscriptionId, isRead: bool)

  datatype Db = Db(users: seq<User>, posts: seq<Post>, subscriptions: seq<Subscription>, feedPosts: seq<FeedPost>)

  /** max_length of the title column. */
  const TitleMaxLength := 255

  // Keys of the constraints, as named functions so that every statement
  // about a constraint refers to the same key.
  function UserPk(u: User): UserId { u.id }
  function PostPk(p: Post): PostId { p.id }
  function PostBlogTitle(p: Post): (UserId, string) { (p.blog, p.title) }
  function SubscriptionPk(s: Subscription): SubscriptionId { s.id }
  function SubscriptionBlogUser(s: Subscription): (UserId, UserId) { (s.blog, s.user) }
  function FeedPostPk(f: FeedPost): FeedPostId { f.id }

  function UserIds(users: seq<User>): set<UserId> { set u | u in users :: u.id }
  function PostIds(posts: seq<Post>): set<PostId> { set p | p in posts :: p.id }
  function SubscriptionIds(subs: seq<Subscription>): set<SubscriptionId> { set s | s in subs :: s.id }
  function FeedPostIds(rows: seq<FeedPost>): set<FeedPostId> { set f | f in rows :: f.id }

  /** Every foreign key points at an existing row. */
  ghost predicate References(db: Db)
  {
    (forall p :: p in db.posts ==> p.blog in UserIds(db.users)) &&
    (forall s :: s in db.subscriptions ==> s.blog in UserIds(db.users) && s.user in UserIds(db.users)) &&
    (forall f :: f in db.feedPosts ==> f.post in PostIds(db.posts) && f.subscription in SubscriptionIds(db.subscriptions))
  }

  /** Primary keys, no two posts of one blog with the same title, and no
      user following one blog twice. */
  ghost predicate Keys(db: Db)
  {
    UniqueBy(db.users, UserPk) &&
    UniqueBy(db.posts, PostPk) && UniqueBy(db.posts, PostBlogTitle) &&
    UniqueBy(db.subscriptions, SubscriptionPk) && UniqueBy(db.subscriptions, SubscriptionBlogUser) &&
    UniqueBy(db.feedPosts, FeedPostPk)
  }

  /** What the database guarantees about its contents: every unique key and
      referential integrity. */
  ghost predicate Valid(db: Db)
  {
    Keys(db) && References(db)
  }

  /** Lexicographic order of titles by character code: the order of the
      model's default ordering on `title`. */
  predicate TitleLe(a: string, b: string)
  {
    if a == [] then true
    else if b == [] then false
    else if a[0] != b[0] then a[0] < b[0]
    else TitleLe(a[1..], b[1..])
  }

  lemma {:induction false} TitleLeTotal(a: string, b: string)
    ensures TitleLe(a, b) || TitleLe(b, a)
  {
    if a != [] && b != [] && a[0] == b[0] {
      TitleLeTotal(a[1..], b[1..]);
    }
  }

  lemma {:induction false} TitleLeTransitive(a: string, b: string, c: string)
    requires TitleLe(a, b) && TitleLe(b, c)
    ensures TitleLe(a, c)
  {
    if a != [] && a[0] == b[0] && b[0] == c[0] {
      TitleLeTransitive(a[1..], b[1..], c[1..]);
    }
  }

  lemma {:induction false} TitleLeAntisymmetric(a: string, b: string)
    requires TitleLe(a, b) && TitleLe(b, a)
    ensures a == b
  {
    if a != [] {
      TitleLeAntisymmetric(a[1..], b[1..]);
      assert a == [a[0]] + a[1..] && b == [b[0]] + b[1..];
    }
  }

  predicate ByTitle(p: Post, q: Post) { TitleLe(p.title, q.title) }

  lemma ByTitleIsPreorder()
    ensures TotalPreorder(ByTitle)
  {
    forall a: Post, b: Post ensures ByTitle(a, b) || ByTitle(b, a) {
      TitleLeTotal(a.title, b.title);
    }
    forall a: Post, b: Post, c: Post | ByTitle(a, b) && ByTitle(b, c) ensures ByTitle(a, c) {
      TitleLeTransitive(a.title, b.title, c.title);
    }
  }

  /** Posts in the model's default order: by title, ascending. */
  function PostsByTitle(posts: seq<Post>): (r: seq<Post>)
    ensures multiset(r) == multiset(posts)
    ensures forall i, j :: 0 <= i < j < |r| ==> TitleLe(r[i].title, r[j].title)
  {
    ByTitleIsPreorder();
    SortBy(posts, ByTitle)
  }

  /** Among the posts of one blog titles are unique, so the default order is
      strict and leaves no tie for the database to break. */
  lemma BlogPostsByTitleStrict(posts: seq<Post>, blog: UserId)
    requires UniqueBy(posts, PostBlogTitle)
    requires forall p :: p in posts ==> p.blog == blog
    ensures forall i, j :: 0 <= i < j < |PostsByTitle(posts)| ==>
      PostsByTitle(posts)[i].title != PostsByTitle(posts)[j].title &&
      !TitleLe(PostsByTitle(posts)[j].title, PostsByTitle(posts)[i].title)
  {
    var r := PostsByTitle(posts);
    UniqueBySubMultiset(posts, r, PostBlogTitle);
    forall i, j | 0 <= i < j < |r| ensures r[i].title != r[j].title && !TitleLe(r[j].title, r[i].title) {
      assert r[i] in multiset(r) && r[j] in multiset(r);
      UniqueKeysDistinct(r, PostBlogTitle, i, j);
      if TitleLe(r[j].title, r[i].title) {
        TitleLeAntisymmetric(r[i].title, r[j].title);
      }
    }
  }

  // ---- cascades (on_delete=CASCADE) ----

  /** Deleting a post also deletes every FeedPost that points at it. */
  function DeletePost(db: Db, pk: PostId): (r: Db)
    ensures r.users == db.users && r.subscriptions == db.subscriptions
    ensures forall p :: p in r.posts <==> p in db.posts && p.id != pk
    ensures forall f :: f in r.feedPosts <==> f in db.feedPosts && f.post != pk
  {
    db.(posts := Filter(db.posts, (p: Post) => p.id != pk),
        feedPosts := Filter(db.feedPosts, (f: FeedPost) => f.post != pk))
  }

  /** Deleting a subscription also deletes the FeedPosts delivered through it. */
  function DeleteSubscription(db: Db, pk: SubscriptionId): (r: Db)
    ensures r.users == db.users && r.posts == db.posts
    ensures forall s :: s in r.subscriptions <==> s in db.subscriptions && s.id != pk
    ensures forall f :: f in r.feedPosts <==> f in db.feedPosts && f.subscription != pk
  {
    db.(subscriptions := Filter(db.subscriptions, (s: Subscription) => s.id != pk),
        feedPosts := Filter(db.feedPosts, (f: FeedPost) => f.subscription != pk))
  }

  /** The posts written by `uid`. */
  function PostIdsOfBlog(posts: seq<Post>, uid: UserId): set<PostId>
  {
    set p | p in posts && p.blog == uid :: p.id
  }

  /** The subscriptions in which `uid` is the followed blog or the follower. */
  function SubscriptionIdsOfUser(subs: seq<Subscription>, uid: UserId): set<SubscriptionId>
  {
    set s | s in subs && (s.blog == uid || s.user == uid) :: s.id
  }

  /** Deleting a user deletes their posts, every subscription in which they
      are the followed blog or the follower, and, one level further, the
      FeedPosts of the deleted posts and subscriptions. */
  function DeleteUser(db: Db, uid: UserId): (r: Db)
    ensures forall u :: u in r.users <==> u in db.users && u.id != uid
    ensures forall p :: p in r.posts <==> p in db.posts && p.blog != uid
    ensures forall s :: s in r.subscriptions <==> s in db.subscriptions && s.blog != uid && s.user != uid
    ensures forall f :: f in r.feedPosts <==>
      f in db.feedPosts && f.post !in PostIdsOfBlog(db.posts, uid) &&
      f.subscription !in SubscriptionIdsOfUser(db.subscriptions, uid)
    ensures multiset(r.users) <= multiset(db.users) && multiset(r.posts) <= multiset(db.posts)
    ensures multiset(r.subscriptions) <= multiset(db.subscriptions) && multiset(r.feedPosts) <= multiset(db.feedPosts)
  {
    var gonePosts := PostIdsOfBlog(db.posts, uid);
    var goneSubscriptions := SubscriptionIdsOfUser(db.subscriptions, uid);
    Db(Filter(db.users, (u: User) => u.id != uid),
       Filter(db.posts, (p: Post) => p.blog != uid),
       Filter(db.subscriptions, (s: Subscription) => s.blog != uid && s.user != uid),
       Filter(db.feedPosts, (f: FeedPost) => f.post !in gonePosts && f.subscription !in goneSubscriptions))
  }

  lemma DeletePostValid(db: Db, pk: PostId)
    requires Valid(db)
    ensures Valid(DeletePost(db, pk))
  {
    var r := DeletePost(db, pk);
    UniqueBySubMultiset(db.posts, r.posts, PostPk);
    UniqueBySubMultiset(db.posts, r.posts, PostBlogTitle);
    UniqueBySubMultiset(db.feedPosts, r.feedPosts, FeedPostPk);
    forall f | f in r.feedPosts ensures f.post in PostIds(r.posts) {
      var p :| p in db.posts && p.id == f.post;
      assert p in r.posts;
    }
  }

  lemma DeleteSubscriptionValid(db: Db, pk: SubscriptionId)
    requires Valid(db)
    ensures Valid(DeleteSubscription(db, pk))
  {
    DeleteSubscriptionKeys(db, pk);
    var r := DeleteSubscription(db, pk);
    forall f | f in r.feedPosts ensures f.subscription in SubscriptionIds(r.subscriptions) {
      var s :| s in db.subscriptions && s.id == f.subscription;
      assert s in r.subscriptions;
    }
  }

  lemma DeleteSubscriptionKeys(db: Db, pk: SubscriptionId)
    requires Keys(db)
    ensures Keys(DeleteSubscription(db, pk))
  {
    var r := DeleteSubscription(db, pk);
    UniqueBySubMultiset(db.subscriptions, r.subscriptions, SubscriptionPk);
    UniqueBySubMultiset(db.subscriptions, r.subscriptions, SubscriptionBlogUser);
    UniqueBySubMultiset(db.feedPosts, r.feedPosts, FeedPostPk);
  }

  lemma DeleteUserValid(db: Db, uid: UserId)
    requires Valid(db)
    ensures Valid(DeleteUser(db, uid))
  {
    DeleteUserKeys(db, uid);
    DeleteUserReferences(db, uid);
  }

  lemma DeleteUserKeys(db: Db, uid: UserId)
    requires Keys(db)
    ensures Keys(DeleteUser(db, uid))
  {
    var r := DeleteUser(db, uid);
    UniqueBySubMultiset(db.users, r.users, UserPk);
    UniqueBySubMultiset(db.posts, r.posts, PostPk);
    UniqueBySubMultiset(db.posts, r.posts, PostBlogTitle);
    UniqueBySubMultiset(db.subscriptions, r.subscriptions, SubscriptionPk);
    UniqueBySubMultiset(db.subscriptions, r.subscriptions, SubscriptionBlogUser);
    UniqueBySubMultiset(db.feedPosts, r.feedPosts, FeedPostPk);
  }

  lemma DeleteUserReferences(db: Db, uid: UserId)
    requires References(db)
    ensures References(DeleteUser(db, uid))
  {
    DeleteUserOwnerReferences(db, uid);
    var r := DeleteUser(db, uid);
    forall f | f in r.feedPosts
      ensures f.post in PostIds(r.posts) && f.subscription in SubscriptionIds(r.subscriptions)
    {
      var p :| p in db.posts && p.id == f.post;
      var s :| s in db.subscriptions && s.id == f.subscription;
      assert p in r.posts && s in r.subscriptions;
    }
  }

  /** After a user is deleted, every remaining post and subscription still
      points at remaining users. */
  lemma DeleteUserOwnerReferences(db: Db, uid: UserId)
    requires References(db)
    ensures var r := DeleteUser(db, uid);
      (forall p :: p in r.posts ==> p.blog in UserIds(r.users)) &&
      (forall s :: s in r.subscriptions ==> s.blog in UserIds(r.users) && s.user in UserIds(r.users))
  {
    var r := DeleteUser(db, uid);
    forall p | p in r.posts ensures p.blog in UserIds(r.users) {
      var u :| u in db.users && u.id == p.blog;
      assert u in r.users;
    }
    forall s | s in r.subscriptions ensures s.blog in UserIds(r.users) && s.user in UserIds(r.users) {
      var b :| b in db.users && b.id == s.blog;
      var u :| u in db.users && u.id == s.user;
      assert b in r.users && u in r.users;
    }
  }
}
