/** The relational store the services query, as immutable maps from primary key to row. */
module Schema {
  import opened Errors

  /** Primary keys and foreign keys: integers, as the routes' `ParseIntPipe` produces. */
  type Id = int

  datatype Status = Published | Draft | Archived

  datatype User = User(id: Id, email: string, password: string, name: string, createdAt: nat)

  datatype Category = Category(id: Id, name: string, slug: string, userId: Id)

  datatype Post = Post(
    id: Id,
    title: string,
    excerpt: string,
    content: string,
    slug: string,
    status: Status,
    readingTime: string,
    viewCount: nat,
    authorId: Id,
    categoryId: Id)

  /** The three tables, and the next value of each auto-increment key. */
  datatype Db = Db(
    users: map<Id, User>,
    posts: map<Id, Post>,
    categories: map<Id, Category>,
    nextUserId: Id,
    nextPostId: Id,
    nextCategoryId: Id)

  /** What a service method leaves behind: the store after it, and what it settled to. */
  datatype Reply<+T> = Reply(db: Db, result: Result<T>)

  /** The service method's `catch` block applied to what its `try` block left behind;
      no `try` block writes before it throws, so the store is kept as it is. */
  function Rethrow<T>(r: Reply<T>, message: string): Reply<T> {
    Reply(r.db, CatchAll(r.result, message))
  }

  /** An empty database; auto-increment keys start at 1. */
  const EmptyDb := Db(map[], map[], map[], 1, 1, 1)

  /** What the database schema guarantees of every state: each row sits under its own key,
      keys are positive and below the auto-increment counter, the columns declared unique
      (`Post.slug`, `User.email`) are unique, and a post's author and category exist (the
      relations posts.service.ts includes). */
  predicate Valid(db: Db) {
    && 1 <= db.nextUserId && 1 <= db.nextPostId && 1 <= db.nextCategoryId
    && (forall id :: id in db.users ==> db.users[id].id == id && 1 <= id < db.nextUserId)
    && (forall id :: id in db.posts ==> db.posts[id].id == id && 1 <= id < db.nextPostId)
    && (forall id :: id in db.categories ==> db.categories[id].id == id && 1 <= id < db.nextCategoryId)
    && (forall i, j :: i in db.posts && j in db.posts && db.posts[i].slug == db.posts[j].slug ==> i == j)
    && (forall i, j :: i in db.users && j in db.users && db.users[i].email == db.users[j].email ==> i == j)
    && (forall id :: id in db.posts ==> db.posts[id].authorId in db.users && db.posts[id].categoryId in db.categories)
  }

  /** The error a write that breaks a foreign key gets from the database client. */
  const ForeignKeyViolation := DatabaseError("Foreign key constraint failed")

  /** One user never owns two categories with the same slug. `Valid` does not assume it;
      the categories service keeps it by its own checks. */
  predicate CategorySlugsUniquePerOwner(db: Db) {
    forall i, j ::
      i in db.categories && j in db.categories
      && db.categories[i].userId == db.categories[j].userId
      && db.categories[i].slug == db.categories[j].slug
      ==> i == j
  }

  /** The number of posts, by any author, whose `categoryId` is `categoryId`: Prisma's
      `post.count({ where: { categoryId } })` and `_count: { Post }`. */
  function PostCount(db: Db, categoryId: Id): (n: nat)
    ensures n == 0 <==> forall id :: id in db.posts ==> db.posts[id].categoryId != categoryId
  {
    var ids := set id | id in db.posts && db.posts[id].categoryId == categoryId;
    assert (forall id :: id in db.posts ==> db.posts[id].categoryId != categoryId) ==> ids == {};
    assert (exists id :: id in db.posts && db.posts[id].categoryId == categoryId) ==> |ids| > 0 by {
      if exists id :: id in db.posts && db.posts[id].categoryId == categoryId {
        var id :| id in db.posts && db.posts[id].categoryId == categoryId;
        assert id in ids;
      }
    }
    |ids|
  }

  /** Adding a fresh key to a table and removing it again gives the table back. */
  lemma MapPutRemove<K, V>(m: map<K, V>, k: K, v: V)
    requires k !in m
    ensures m[k := v] - {k} == m
  {
  }

  lemma EmptyDbValid()
    ensures Valid(EmptyDb) && CategorySlugsUniquePerOwner(EmptyDb)
  {
  }
}
