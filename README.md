# Feed fan-out store of the blog application

This project models the core of a small Django blogging application (the
`blog` app). Users write posts on their own blog and follow other users'
blogs. Each user reads a feed of the posts of the blogs they follow. The feed
is stored, not computed: every time a post or a subscription is saved, a
`post_save` handler inserts a batch of `FeedPost` rows. Saving a post inserts
one row per subscription to its blog, and its subscribers get one
notification mail. Saving a subscription inserts one row per post of the
followed blog. The post handler runs again when a post is edited, so an edit
inserts a second batch for pairs that already have a row.

The model holds the four tables (users, posts, subscriptions, feed posts) as
sequences of rows. The model has these modules:

- `Models` (models.dfy) has the row shapes and the constraints the database
  enforces: primary keys, `unique_together` on (blog, title) and on
  (blog, user), and foreign keys. It also has the ON DELETE CASCADE deletes,
  which are proved to keep every constraint. The default order of posts is
  by title.
- `FanOut` (fanout.dfy) has the rows the two handlers insert and the mail's
  recipient list. It states two invariants between the tables. FeedSound:
  every feed row joins a post to a subscription of that post's blog.
  FeedComplete: every such pair has a feed row. Every write keeps both
  invariants.
- `Queries` (queries.dfy) has the read side: the feed, one blog's posts, the
  blog list with the subscription flag, and the owner-scoped lookups.
- `Views` (views.dfy) has the class `Store`. Most of its methods are the
  write views: create and update a post, subscribe, unsubscribe, mark a feed
  row read, and delete a post. Each write method keeps `Valid()` and states
  the new tables exactly. Each error case (not found, form invalid, unique
  constraint broken, missing foreign key) leaves the tables as they were.
  `ListBlogs` is the one read: it changes nothing and returns the blog list.

The logged-in user is a parameter of each view method that reads it
(`MakeRead` and `DeletePost` do not). The time of a post's
first save is a parameter. Each table's auto-increment counter is a field of
the store.

What the model shows about the code as written:

- The handlers ignore the `created` flag Django passes (blog/views.py:14
  and 53 declare a parameter `create=True` instead). So saving an edited
  post fans it out again. `FanOut.ResaveDuplicates` proves that after an
  edit a post of a followed blog has two feed rows, with different ids, for
  the same subscription. Nothing in the code prevents this. The model keeps
  this behaviour: `Views.Store.UpdatePost` appends a second batch.
- The `FeedPost` class in blog/models.py:40-45 declares `post` and `user`.
  Every query and insert in blog/views.py uses `post`, `subscription` and
  `is_read`. The model uses the shape the views use. Deleting a
  subscription is assumed to delete its feed rows, like every other foreign
  key in the app.
- Marking a feed row read (blog/views.py:195-200) looks the row up by id
  alone. Any logged-in user can mark any user's row read.
- Deleting a post (blog/views.py:156-162) looks the post up by id alone. It
  has no owner scoping.
- Updating a post looks the post up on the current user's blog
  (blog/views.py:149-153). For someone else's post this gives NotFound, the
  same answer as for a missing post.

## Model

| member | source | states |
|---|---|---|
| Models.ByTitleIsPreorder | blog/models.py:17 | ordering by title compares any two posts and is transitive, so it is a valid ORDER BY |
| Models.PostsByTitle | blog/models.py:17 | the default ordering returns the same rows, each as often as before, with titles ascending |
| Models.BlogPostsByTitleStrict | blog/models.py:17-20 | within one blog, unique titles make the title order strict: no two rows tie, and each title comes strictly before every later one |
| Models.DeletePost | blog/models.py:41-42 | deleting a post removes exactly that post and the feed rows that point at it; users and subscriptions stay |
| Models.DeletePostValid | blog/models.py:41-42 | the post cascade keeps every key, both unique constraints and every foreign key |
| Models.DeleteSubscription | blog/views.py:182-186 | deleting a subscription removes exactly it and the feed rows delivered through it; users and posts stay |
| Models.DeleteSubscriptionValid | blog/views.py:182-186 | the subscription cascade keeps every constraint |
| Models.DeleteUser | blog/models.py:8-32 | deleting a user removes the user, their posts, every subscription where they are the blog or the follower, and the feed rows of all of those; no row is added to any table |
| Models.DeleteUserValid | blog/models.py:8-32 | the user cascade keeps every key, both unique constraints and every foreign key |
| FanOut.PostFanOut | blog/views.py:20-32 | the batch for a post has one row per subscription to the post's blog; every row joins that post and is unread |
| FanOut.SubscriptionFanOut | blog/views.py:58-70 | the batch for a new subscription has one row per post the handler's query returned; every row joins that subscription and is unread |
| FanOut.AfterUpdatePost | blog/views.py:141-153 | saving an edited post leaves the users and subscriptions alone, keeps the number of posts, and adds one feed row per subscription to the post's blog |
| FanOut.BlogPostsByTitle | blog/views.py:58-61 | the handler's query returns exactly the followed blog's posts, in title order |
| FanOut.PostFanOutExactlyOne | blog/views.py:20-32 | for each subscription to the post's blog the batch has exactly one row joining it to the post; every row is unread, has a new id, and comes from such a subscription; ids in the batch are unique |
| FanOut.SubscriptionFanOutExactlyOne | blog/views.py:58-70 | for each post of the followed blog the batch has exactly one row joining it to the new subscription; every row is unread, has a new id, and joins a post of that blog |
| FanOut.Recipients | blog/views.py:34-38 | an address is a recipient iff it belongs to a user who holds a subscription to the post's blog |
| FanOut.CreatePostKeepsInvariants | blog/views.py:14-32 | saving a new post and running its handler keeps the database valid and both feed invariants |
| FanOut.CreateSubscriptionKeepsInvariants | blog/views.py:53-70 | saving a new subscription and running its handler keeps the database valid and both feed invariants |
| FanOut.UpdatePostKeepsInvariants | blog/views.py:141-153 | saving an edited post and running the handler again keeps the database valid and both feed invariants |
| FanOut.ResaveKeepsCreated | blog/models.py:6-7 | after an edit the post keeps its id and position, and the post with that id is the same row: its creation time and blog are unchanged, only its title and text are new |
| FanOut.ResaveDuplicates | blog/views.py:14-50 | in the tables after an edited post is saved again (AfterUpdatePost), a pair of that post and a follower has two feed rows with different ids |
| FanOut.DeletePostKeepsFeed | blog/models.py:41-42 | the post cascade keeps both feed invariants |
| FanOut.DeleteSubscriptionKeepsFeed | blog/views.py:182-186 | the subscription cascade keeps both feed invariants |
| FanOut.DeleteUserKeepsFeed | blog/models.py:8-32 | the user cascade keeps both feed invariants |
| Queries.CreatedOfPost | blog/views.py:85 | the sort key of a feed row is the creation time of its post |
| Queries.Feed | blog/views.py:81-85 | the feed holds exactly the user's rows (those whose subscription belongs to the user), each as often as in the table, newest post first |
| Queries.FeedIsFollowedPosts | blog/views.py:81-85 | in a consistent store the feed has a row for every post of every blog the user follows, and nothing else |
| Queries.ShownBlog | blog/views.py:95 | a route blog id that is given and not zero is used; otherwise the current user's blog is used |
| Queries.BlogPosts | blog/views.py:95-98 | exactly the shown blog's posts, each as often as in the table, newest first |
| Queries.UsersByJoined | blog/views.py:113-118 | all users, each as often as in the table, most recently joined first |
| Queries.BlogList | blog/views.py:107-121 | one entry per user, most recently joined first, with id and username; the flag is set iff the current user follows that blog |
| Queries.OwnedPost | blog/views.py:149-153 | a post is found iff one has that id on the current user's blog |
| Queries.OthersPostNotFound | blog/views.py:149-153 | another user's post is not found, the same answer as for a missing post |
| Queries.OwnSubscription | blog/views.py:182-186 | a subscription is found iff the current user holds one to that blog |
| Views.RowsWithRead | blog/views.py:199-200 | every row keeps its id, post and subscription; a row is read afterwards iff it was read before or has that id |
| Views.RowsWithReadIdempotent | blog/views.py:199-200 | marking the same row read twice gives the same table as once |
| Views.RowsWithReadKeepsInvariants | blog/views.py:195-200 | marking a row read keeps the database valid and both feed invariants |
| Views.CreatePostConsistent | blog/views.py:14-32 | a new post and its batch keep the store consistent, ids included |
| Views.UpdatePostConsistent | blog/views.py:141-153 | an edited post and its second batch keep the store consistent, ids included |
| Views.CreateSubscriptionConsistent | blog/views.py:53-70 | a new subscription and its batch keep the store consistent, ids included |
| Views.DeletePostConsistent | blog/views.py:156-162 | deleting a post keeps the store consistent |
| Views.DeleteSubscriptionConsistent | blog/views.py:182-186 | deleting a subscription keeps the store consistent |
| Views.RowsWithReadConsistent | blog/views.py:195-200 | marking a row read keeps the store consistent |
| Views.Store.constructor | blog/models.py:5-45 | a store of registered users with empty tables is consistent |
| Views.Store.InsertPost | blog/views.py:14-38 | the post is appended, exactly its fan-out batch is appended to the feed rows, the result is the mail's recipients, and the store stays consistent |
| Views.Store.ResavePost | blog/views.py:141-153 | the post's title and text are replaced in place, a fresh fan-out batch is appended, and the store stays consistent |
| Views.Store.InsertSubscription | blog/views.py:53-70 | the subscription is appended, exactly its fan-out batch in title order is appended, and the store stays consistent |
| Views.Store.CreatePost | blog/views.py:130-138 | InvalidForm iff the form fails; otherwise Conflict iff the title is taken on the user's blog; otherwise the post is saved on the user's blog and fanned out; any error leaves the tables unchanged |
| Views.Store.UpdatePost | blog/views.py:141-153 | NotFound iff no post with that id is on the user's blog; then InvalidForm, then Conflict; otherwise the post is edited in place and fanned out again; any error leaves the tables unchanged |
| Views.Store.Subscribe | blog/views.py:170-173 | MissingReference iff the blog is not a user; otherwise Conflict iff the user already follows it; otherwise the subscription is saved and the blog's posts are fanned out to it |
| Views.Store.Unsubscribe | blog/views.py:182-186 | NotFound, tables unchanged, iff the user does not follow the blog; otherwise that subscription is deleted with its feed rows |
| Views.Store.MakeRead | blog/views.py:195-200 | NotFound, tables unchanged, iff no feed row has that id; otherwise exactly that row is flagged read, whoever owns it |
| Views.Store.DeletePost | blog/views.py:156-162 | NotFound, tables unchanged, iff no post has that id; otherwise the post is deleted with its feed rows, whoever wrote it |
| Views.Store.ListBlogs | blog/views.py:107-121 | the loop that sets the flag on each entry returns exactly the blog list |

## Left out

- The notification mail itself is not modelled: send_mail, the subject, the link built from BASE_URL and reverse(), and FROM_EMAIL (blog/views.py:39-48). These are I/O and string formatting. Only the recipient list is modelled.
- blog/urls.py is not part of this model. It is a routing table; the views take the route's values as parameters.
- Login, templates, rendering and redirects are not modelled. The logged-in user is a parameter. CreatePost and Subscribe require that user to exist.
- PostView (blog/views.py:124-127) is not modelled. It is a plain lookup by id with no logic of its own. Post.__str__ is not modelled either.
- User registration is not modelled. No view of the app deletes a user, so Models.DeleteUser is a function with its lemmas but no store method.
- The ORM's lazy querysets, select_related, values() dictionaries and bulk_create batching are not modelled. They become sequence filters, sorts and appends. BlogView yields whole post rows, and BlogList yields (id, username, flag) records.
- Transactions and concurrent requests are not modelled. Each store method is one atomic step. The race between the two handlers is outside the model.
- Dates are integers. The creation time is a parameter, and nothing requires later saves to carry later times.
- Database collation is not modelled. Title order compares characters by code point. Ties under ORDER BY are left to the database in the source, and no contract fixes how the model breaks them.
- Form cleaning is not modelled. Django strips surrounding whitespace from the title and text before checking that they are non-empty; the model checks the strings as given.
- Row ids come from counters that only grow. Whether the database reuses ids is not modelled.
- Queries.Feed: a feed row whose post does not exist would sort with creation time 0. Referential integrity, which the store keeps, rules this case out.
