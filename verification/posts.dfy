/** `PostsService` of backend/src/posts/posts.service.ts over the in-memory store. */
module Posts {
  import opened Optional
  import opened Errors
  import opened Schema
  import Slugs
  import Reading

  /** The body of `POST /posts/:userId`. */
  datatype CreatePostData = CreatePostData(
    title: string,
    excerpt: string,
    content: string,
    categoryId: Id,
    status: Option<Status>,
    readingTime: Option<string>)

  /** The body of `PUT /posts/:id/:userId`; every property may be absent. */
  datatype UpdatePostData = UpdatePostData(
    title: Option<string>,
    excerpt: Option<string>,
    content: Option<string>,
    categoryId: Option<Id>,
    status: Option<Status>,
    readingTime: Option<string>)

  predicate SlugTaken(db: Db, slug: string) {
    exists id | id in db.posts :: db.posts[id].slug == slug
  }

  predicate SlugTakenByOther(db: Db, slug: string, self: Id) {
    exists id | id in db.posts && id != self :: db.posts[id].slug == slug
  }

  // ---------------------------------------------------------------------------
  // Reads

  /** `getAllPosts`: the published posts, under their keys. */
  function GetAllPosts(db: Db): (r: map<Id, Post>)
    ensures forall id :: id in r <==> id in db.posts && db.posts[id].status == Published
    ensures forall id :: id in r ==> r[id] == db.posts[id]
  {
    map id | id in db.posts && db.posts[id].status == Published :: db.posts[id]
  }

  /** `getAllPostsAdmin(userId)`: every post of one author, whatever its status. */
  function GetAllPostsAdmin(db: Db, userId: Id): (r: map<Id, Post>)
    ensures forall id :: id in r <==> id in db.posts && db.posts[id].authorId == userId
    ensures forall id :: id in r ==> r[id] == db.posts[id]
  {
    map id | id in db.posts && db.posts[id].authorId == userId :: db.posts[id]
  }

  /** `getPostById`: the missing-post NotFound is rewrapped by the catch block. */
  function GetPostById(db: Db, postId: Id): (r: Result<Post>)
    ensures r.Ok? <==> postId in db.posts
    ensures r.Ok? ==> r.value == db.posts[postId]
    ensures r.Err? ==> r.error == InternalServerError("Failed to get post")
  {
    CatchAll(if postId in db.posts then Ok(db.posts[postId]) else Err(NotFound("Post not found")),
             "Failed to get post")
  }

  /** The key of the one post with `slug`; the unique index on the column makes it one. */
  function PostWithSlug(db: Db, slug: string): (id: Id)
    requires Valid(db) && SlugTaken(db, slug)
    ensures id in db.posts && db.posts[id].slug == slug
    ensures forall j :: j in db.posts && db.posts[j].slug == slug ==> j == id
  {
    var id :| id in db.posts && db.posts[id].slug == slug;
    id
  }

  function GetPostBySlugBody(db: Db, slug: string): Reply<Post>
    requires Valid(db)
  {
    if !SlugTaken(db, slug) then Reply(db, Err(NotFound("Post not found")))
    else
      var post := db.posts[PostWithSlug(db, slug)];
      Reply(db.(posts := db.posts[post.id := post.(viewCount := post.viewCount + 1)]), Ok(post))
  }

  /** `getPostBySlug`: the post as it was read, while the stored copy's view count goes up
      by one and nothing else in the store changes. */
  function GetPostBySlug(db: Db, slug: string): (r: Reply<Post>)
    requires Valid(db)
    ensures Valid(r.db)
    ensures r.result.Ok? <==> SlugTaken(db, slug)
    ensures r.result.Err? ==> r.db == db && r.result.error == InternalServerError("Failed to get post")
    ensures r.result.Ok? ==>
      var p := r.result.value;
      && p.id in db.posts && db.posts[p.id] == p && p.slug == slug
      && r.db == db.(posts := db.posts[p.id := p.(viewCount := p.viewCount + 1)])
  {
    Rethrow(GetPostBySlugBody(db, slug), "Failed to get post")
  }

  // ---------------------------------------------------------------------------
  // Writes

  /** The condition under which `createPost` succeeds: the slug of the title is free and
      both the author and the category exist. */
  predicate CreateSucceeds(db: Db, data: CreatePostData, userId: Id) {
    && !SlugTaken(db, Slugs.GenerateSlug(data.title))
    && userId in db.users && data.categoryId in db.categories
  }

  function CreatePostBody(db: Db, data: CreatePostData, userId: Id): Reply<Post> {
    var slug := Slugs.GenerateSlug(data.title);
    if SlugTaken(db, slug) then Reply(db, Err(Forbidden("A post with this title already exists")))
    else if userId !in db.users || data.categoryId !in db.categories then Reply(db, Err(ForeignKeyViolation))
    else
      var post := Post(
        id := db.nextPostId,
        title := data.title,
        excerpt := data.excerpt,
        content := data.content,
        slug := slug,
        status := data.status.GetOr(Draft),
        readingTime := data.readingTime.GetOr(Reading.CalculateReadingTime(data.content)),
        viewCount := 0,
        authorId := userId,
        categoryId := data.categoryId);
      Reply(db.(posts := db.posts[post.id := post], nextPostId := db.nextPostId + 1), Ok(post))
  }

  /** `createPost(data, userId)`. It fails exactly when some post already has the slug of
      the title, or when the author or the category does not exist (the database refuses
      the row), and then changes nothing; otherwise it adds one post under a fresh key and
      touches no other row. */
  function CreatePost(db: Db, data: CreatePostData, userId: Id): (r: Reply<Post>)
    requires Valid(db)
    ensures Valid(r.db)
    ensures r.result.Ok? <==> CreateSucceeds(db, data, userId)
    ensures r.result.Err? ==> r.db == db && r.result.error == InternalServerError("Failed to create post")
    ensures r.result.Ok? ==>
      var p := r.result.value;
      && p.id !in db.posts
      && r.db.posts == db.posts[p.id := p]
      && r.db.users == db.users && r.db.categories == db.categories
      && p.title == data.title && p.excerpt == data.excerpt && p.content == data.content
      && p.slug == Slugs.GenerateSlug(data.title)
      && p.status == (if data.status.Some? then data.status.value else Draft)
      && p.readingTime == (if data.readingTime.Some? then data.readingTime.value
                           else Reading.CalculateReadingTime(data.content))
      && p.viewCount == 0 && p.authorId == userId && p.categoryId == data.categoryId
  {
    var r := CreatePostBody(db, data, userId);
    if r.result.Ok? then InsertPostValid(db, r.result.value); Rethrow(r, "Failed to create post")
    else Rethrow(r, "Failed to create post")
  }

  /** Adding a post under the next key, with a free slug and an existing author and
      category, keeps every guarantee of the schema. */
  lemma InsertPostValid(db: Db, p: Post)
    requires Valid(db) && p.id == db.nextPostId && !SlugTaken(db, p.slug)
    requires p.authorId in db.users && p.categoryId in db.categories
    ensures Valid(db.(posts := db.posts[p.id := p], nextPostId := db.nextPostId + 1))
  {
  }

  /** Whether an update renames the post, which is when its slug is derived anew. */
  predicate Retitles(post: Post, data: UpdatePostData) {
    Truthy(data.title) && data.title.value != post.title
  }

  function UpdatePostBody(db: Db, postId: Id, data: UpdatePostData, userId: Id): Reply<Post> {
    if postId !in db.posts then Reply(db, Err(NotFound("Post not found")))
    else
      var post := db.posts[postId];
      if post.authorId != userId then Reply(db, Err(Forbidden("You can only update your own posts")))
      else
        var slug := if Retitles(post, data) then Slugs.GenerateSlug(data.title.value) else post.slug;
        if Retitles(post, data) && SlugTakenByOther(db, slug, postId) then
          Reply(db, Err(Forbidden("A post with this title already exists")))
        else if TruthyNumber(data.categoryId) && data.categoryId.value !in db.categories then
          Reply(db, Err(ForeignKeyViolation))
        else
          var updated := post.(
            title := if Truthy(data.title) then data.title.value else post.title,
            excerpt := if Truthy(data.excerpt) then data.excerpt.value else post.excerpt,
            content := if Truthy(data.content) then data.content.value else post.content,
            status := data.status.GetOr(post.status),
            categoryId := if TruthyNumber(data.categoryId) then data.categoryId.value else post.categoryId,
            slug := slug,
            readingTime := if Truthy(data.content) then Reading.CalculateReadingTime(data.content.value)
                           else post.readingTime);
          Reply(db.(posts := db.posts[postId := updated]), Ok(updated))
  }

  /** `updatePost(postId, data, userId)`. It fails, changing nothing, when the post is
      missing, belongs to someone else, is renamed to a slug another post holds, or is
      moved to a category that does not exist.
      Otherwise only that post changes: a field takes the supplied value only when that
      value is truthy, the slug is derived anew only on a real rename, the reading time is
      recomputed only from new content (a supplied one is ignored), and the key, author
      and view count stay. */
  function UpdatePost(db: Db, postId: Id, data: UpdatePostData, userId: Id): (r: Reply<Post>)
    requires Valid(db)
    ensures Valid(r.db)
    ensures r.result.Err? <==>
      || postId !in db.posts
      || db.posts[postId].authorId != userId
      || (Retitles(db.posts[postId], data) && SlugTakenByOther(db, Slugs.GenerateSlug(data.title.value), postId))
      || (TruthyNumber(data.categoryId) && data.categoryId.value !in db.categories)
    ensures r.result.Err? ==> r.db == db && r.result.error == InternalServerError("Failed to update post")
    ensures r.result.Ok? ==>
      var prev := db.posts[postId];
      var p := r.result.value;
      && r.db == db.(posts := db.posts[postId := p])
      && p.id == postId && p.authorId == prev.authorId && p.viewCount == prev.viewCount
      && p.title == (if Truthy(data.title) then data.title.value else prev.title)
      && p.excerpt == (if Truthy(data.excerpt) then data.excerpt.value else prev.excerpt)
      && p.content == (if Truthy(data.content) then data.content.value else prev.content)
      && p.status == (if data.status.Some? then data.status.value else prev.status)
      && p.categoryId == (if TruthyNumber(data.categoryId) then data.categoryId.value else prev.categoryId)
      && p.slug == (if Retitles(prev, data) then Slugs.GenerateSlug(data.title.value) else prev.slug)
      && p.readingTime == (if Truthy(data.content) then Reading.CalculateReadingTime(data.content.value)
                           else prev.readingTime)
  {
    var r := UpdatePostBody(db, postId, data, userId);
    if r.result.Ok? then ReplacePostValid(db, r.result.value); Rethrow(r, "Failed to update post")
    else Rethrow(r, "Failed to update post")
  }

  /** Replacing a stored post by a version with the same key and author, a slug no other
      post holds and an existing category keeps every guarantee of the schema. */
  lemma ReplacePostValid(db: Db, p: Post)
    requires Valid(db) && p.id in db.posts && p.authorId == db.posts[p.id].authorId
    requires !SlugTakenByOther(db, p.slug, p.id) && p.categoryId in db.categories
    ensures Valid(db.(posts := db.posts[p.id := p]))
  {
  }

  function DeletePostBody(db: Db, postId: Id, userId: Id): Reply<string> {
    if postId !in db.posts then Reply(db, Err(NotFound("Post not found")))
    else if db.posts[postId].authorId != userId then
      Reply(db, Err(Forbidden("You can only delete your own posts")))
    else Reply(db.(posts := db.posts - {postId}), Ok("Post deleted successfully"))
  }

  /** `deletePost(postId, userId)`: only the author removes a post, and exactly that row
      goes; a missing post or another author leaves the store as it is. */
  function DeletePost(db: Db, postId: Id, userId: Id): (r: Reply<string>)
    requires Valid(db)
    ensures Valid(r.db)
    ensures r.result.Ok? <==> postId in db.posts && db.posts[postId].authorId == userId
    ensures r.result.Err? ==> r.db == db && r.result.error == InternalServerError("Failed to delete post")
    ensures r.result.Ok? ==>
      && r.db == db.(posts := db.posts - {postId})
      && r.result.value == "Post deleted successfully"
  {
    Rethrow(DeletePostBody(db, postId, userId), "Failed to delete post")
  }

  // ---------------------------------------------------------------------------
  // Properties across calls

  /** Each read by slug adds exactly one view: a second read returns the count the first
      one left, and the stored count is then two above where it started. */
  lemma ReadsCountViews(db: Db, slug: string)
    requires Valid(db) && SlugTaken(db, slug)
    ensures var r1 := GetPostBySlug(db, slug);
      var r2 := GetPostBySlug(r1.db, slug);
      var p := r1.result.value;
      && r2.result == Ok(p.(viewCount := p.viewCount + 1))
      && r2.db.posts == db.posts[p.id := p.(viewCount := p.viewCount + 2)]
  {
    var r1 := GetPostBySlug(db, slug);
    var p := r1.result.value;
    assert r1.db.posts[p.id].slug == slug;
    var r2 := GetPostBySlug(r1.db, slug);
    assert r2.result.value.id == p.id;
  }

  /** A post just created is found by the slug of its title, with no views yet. */
  lemma CreatedPostFoundBySlug(db: Db, data: CreatePostData, userId: Id)
    requires Valid(db) && CreateSucceeds(db, data, userId)
    ensures var r := CreatePost(db, data, userId);
      GetPostBySlug(r.db, Slugs.GenerateSlug(data.title)).result == Ok(r.result.value)
  {
    var r := CreatePost(db, data, userId);
    var p := r.result.value;
    assert r.db.posts[p.id].slug == p.slug;
    var g := GetPostBySlug(r.db, p.slug);
    assert g.result.value.id == p.id;
  }

  /** A post just created is found by its key, exactly as stored. */
  lemma CreatedPostFoundById(db: Db, data: CreatePostData, userId: Id)
    requires Valid(db) && CreateSucceeds(db, data, userId)
    ensures var r := CreatePost(db, data, userId);
      GetPostById(r.db, r.result.value.id) == Ok(r.result.value)
  {
  }

  /** Once its author has deleted a post, looking it up by key fails. */
  lemma DeletedPostNotFound(db: Db, postId: Id, userId: Id)
    requires Valid(db) && postId in db.posts && db.posts[postId].authorId == userId
    ensures GetPostById(DeletePost(db, postId, userId).db, postId) == Err(InternalServerError("Failed to get post"))
  {
  }

  /** Deleting a post just created, as its author, restores the posts table. */
  lemma DeleteUndoesCreate(db: Db, data: CreatePostData, userId: Id)
    requires Valid(db) && CreateSucceeds(db, data, userId)
    ensures var r := CreatePost(db, data, userId);
      var d := DeletePost(r.db, r.result.value.id, userId);
      d.result.Ok? && d.db.posts == db.posts
  {
    var r := CreatePost(db, data, userId);
    var p := r.result.value;
    var d := DeletePost(r.db, p.id, userId);
    assert d.db.posts == r.db.posts - {p.id};
    Schema.MapPutRemove(db.posts, p.id, p);
  }

  /** Repeating an update that succeeded changes nothing more. */
  lemma UpdateIdempotent(db: Db, postId: Id, data: UpdatePostData, userId: Id)
    requires Valid(db) && UpdatePost(db, postId, data, userId).result.Ok?
    ensures var r := UpdatePost(db, postId, data, userId);
      UpdatePost(r.db, postId, data, userId) == r
  {
    var r := UpdatePost(db, postId, data, userId);
    var p := r.result.value;
    assert !Retitles(p, data);
    var r2 := UpdatePost(r.db, postId, data, userId);
    assert r2.result.value == p;
    assert r.db.posts[postId := p] == r.db.posts;
  }

  /** An update that supplies no truthy field and no status changes nothing, whatever
      reading time it supplies: that one is never copied. */
  lemma FalsyUpdateChangesNothing(db: Db, postId: Id, data: UpdatePostData, userId: Id)
    requires Valid(db) && postId in db.posts && db.posts[postId].authorId == userId
    requires !Truthy(data.title) && !Truthy(data.excerpt) && !Truthy(data.content)
    requires data.status.None? && !TruthyNumber(data.categoryId)
    ensures UpdatePost(db, postId, data, userId) == Reply(db, Ok(db.posts[postId]))
  {
    var r := UpdatePost(db, postId, data, userId);
    assert r.result.value == db.posts[postId];
    assert db.posts[postId := db.posts[postId]] == db.posts;
  }

  /** A post created without a status is a draft: the public listing does not change,
      while its author's listing gains exactly that post. */
  lemma NewDraftStaysPrivate(db: Db, data: CreatePostData, userId: Id)
    requires Valid(db) && data.status.None? && CreateSucceeds(db, data, userId)
    ensures var r := CreatePost(db, data, userId);
      && GetAllPosts(r.db) == GetAllPosts(db)
      && GetAllPostsAdmin(r.db, userId) == GetAllPostsAdmin(db, userId)[r.result.value.id := r.result.value]
  {
    var r := CreatePost(db, data, userId);
    ListingsAfterInsert(db, r.db, r.result.value);
  }

  lemma ListingsAfterInsert(db: Db, db': Db, p: Post)
    requires p.id !in db.posts && db'.posts == db.posts[p.id := p]
    ensures p.status != Published ==> GetAllPosts(db') == GetAllPosts(db)
    ensures GetAllPostsAdmin(db', p.authorId) == GetAllPostsAdmin(db, p.authorId)[p.id := p]
  {
  }

  /** Deleting a post removes it from its author's listing and from no other. */
  lemma DeleteLeavesOtherListings(db: Db, postId: Id, userId: Id, other: Id)
    requires Valid(db) && DeletePost(db, postId, userId).result.Ok?
    ensures var r := DeletePost(db, postId, userId);
      && GetAllPostsAdmin(r.db, userId) == GetAllPostsAdmin(db, userId) - {postId}
      && (other != userId ==> GetAllPostsAdmin(r.db, other) == GetAllPostsAdmin(db, other))
  {
  }
}
