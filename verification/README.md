# MyBlog backend services in Dafny

This project models the three NestJS services at the centre of the MyBlog backend:

- `PostsService` (backend/src/posts/posts.service.ts);
- `CategoriesService` (backend/src/categories/categories.service.ts);
- `AuthService` (backend/src/auth/auth.service.ts).

It then proves properties of the model.

The database becomes an immutable value `Schema.Db`: one map per table (users, posts, categories), keyed by primary key, plus the next auto-increment key of each table. Each service method becomes a pure function. Every method that writes returns a `Reply`: the store after the call, together with what the `async` method settles to. That settled value is either `Ok(value)` or `Err(exception)`.

Each method is modelled in two layers, as the source is written. A `...Body` function is the `try` block and throws the specific NestJS exception. The public function applies the `catch` block to it. The `catch` blocks rewrap every exception as `InternalServerErrorException` (`Errors.CatchAll`). Two keep their own exception instead (`Errors.CatchAllExcept`):

- `getCategoryById` keeps NotFound;
- `getProfile` keeps Unauthorized.

`Schema.Valid` states what the database schema guarantees of every state:

- each row sits under its own key;
- keys lie below the counters;
- post slugs and user emails are unique;
- a post's author and category exist.

Every write is proved to keep `Valid`. One user's category slugs being distinct is a different matter. `Schema.Valid` does not assume it. The categories service keeps it through its own checks, so it is proved preserved (`Schema.CategorySlugsUniquePerOwner`) rather than assumed.

Modules, one per file:

- `optional.dfy`: absent request properties, and JavaScript truthiness.
- `errors.dfy`: exceptions, results, and the `catch` blocks.
- `text.dfy`: JavaScript's `\s` class, and decimal rendering of numbers.
- `slugs.dfy`: `generateSlug`, which both services define identically.
- `reading.dfy`: `calculateReadingTime`.
- `schema.dfy`: rows, the store, the invariant, and post counts.
- `posts.dfy`, `categories.dfy`, `auth.dfy`: the three services.

bcrypt and the JWT signer are foreign code. `Auth.Crypto` passes them in as function values. The one property of them any proof uses is `Auth.HashSound`: a password matches its own hash. The database's `createdAt` default for a new user is the parameter `now` of `Auth.Register`.

### Where the exceptions go

The services throw specific NestJS exceptions, each with its own HTTP status:

- `ConflictException` (409) for a duplicate email or category slug, and for a category still in use;
- `ForbiddenException` (403) when the caller is not the post's author, and for a post title whose slug another post holds;
- `NotFoundException` (404) for a missing post or category.

Each is thrown inside a `try` block, and the `catch` block turns it into `InternalServerErrorException` (500) with a fixed message, so the caller never sees the 409, 403 or 404. The only exceptions are `getCategoryById` and `getProfile`, which rethrow their own NotFound and Unauthorized. The model follows the code. The specific exception stays visible in each `...Body` function, and lemmas such as `Categories.InUseConflictIsSwallowed` and `Categories.NotFoundOnlyFromLookup` show what the caller actually receives.

The Prisma schema file is not part of this model, so what the model takes of the schema is inferred from the service code. Posts are taken to have foreign keys to their author and to their category, because the service `include`s both relations. A `createPost`, or an `updatePost` that moves a post to a category that does not exist, therefore fails with the database's error, which the `catch` block rewraps.

## Model

| member | source | states |
|---|---|---|
| Slugs.GenerateSlug | backend/src/posts/posts.service.ts:252-259 | the slug holds only `a-z`, `0-9` and `-`, and never two hyphens side by side, for any title, ASCII or not; `generateSlug` of categories.service.ts (lines 164-171) is the same five steps, so this one definition serves both services and they agree on every input |
| Slugs.Lower | backend/src/posts/posts.service.ts:254 | lower-casing maps each character on its own and keeps the length; it is `toLowerCase` on ASCII, and beyond ASCII it agrees with it once the filter of the next step has run (A-Z, KELVIN SIGN and U+0130 are the ones that reach the slug changed) |
| Slugs.StripDisallowed | backend/src/posts/posts.service.ts:255 | after the filter only lower-case letters, digits, whitespace and hyphens remain |
| Slugs.StripCounts | backend/src/posts/posts.service.ts:255 | every occurrence of a lower-case letter, digit, whitespace character or hyphen survives the filter, and no other character does |
| Slugs.StripConcat | backend/src/posts/posts.service.ts:255 | the filter works character by character, so the survivors keep their order |
| Slugs.ReplaceRunsAfter | backend/src/posts/posts.service.ts:256-257 | after a run replacement every character is a hyphen or lies outside the replaced class |
| Slugs.ReplaceRunsKeeps | backend/src/posts/posts.service.ts:256-257 | run replacement introduces no character but the hyphen |
| Slugs.ReplaceRunsCounts | backend/src/posts/posts.service.ts:256-257 | run replacement keeps every occurrence of every character outside the replaced class other than the hyphen |
| Slugs.ReplaceRunsConcat | backend/src/posts/posts.service.ts:256-257 | run replacement works left to right: on a concatenation it goes on with the run state the first part ended in |
| Slugs.ReplaceRunsOfRun | backend/src/posts/posts.service.ts:256-257 | a whole run of the class becomes exactly one hyphen, or nothing when it continues a run that already produced one |
| Slugs.ReplaceRunsFixesUnmatched | backend/src/posts/posts.service.ts:256-257 | a stretch with no character of the class is left exactly as it is |
| Slugs.SeparatorPasses | backend/src/posts/posts.service.ts:256-257 | the whitespace pass followed by the hyphen pass equals one pass that replaces each maximal run of whitespace and hyphens by one hyphen |
| Slugs.SlugSeparatorRuns | backend/src/posts/posts.service.ts:252-259 | the slug is the lower-cased title, with disallowed characters removed and each maximal run of whitespace and hyphens replaced by one hyphen |
| Slugs.HyphenRunsCollapsed | backend/src/posts/posts.service.ts:257 | after `/-+/g` no two hyphens are adjacent |
| Slugs.Trim | backend/src/posts/posts.service.ts:258 | `trim` returns a contiguous piece of the input with only whitespace cut on either side, and neither end of a non-empty result is whitespace |
| Slugs.TrimFixesSlug | backend/src/posts/posts.service.ts:258 | `trim` leaves a string of slug characters alone, hyphens at the ends included |
| Slugs.TrimFixesUnpadded | backend/src/posts/posts.service.ts:258 | `trim` changes nothing when neither end is whitespace |
| Slugs.TrimIsNoOp | backend/src/posts/posts.service.ts:252-259 | the final `trim` never has any effect: the slug is the result of the first four steps |
| Slugs.SlugIdempotent | backend/src/posts/posts.service.ts:252-259 | deriving a slug from a slug gives it back |
| Slugs.SlugKeepsAlphanumerics | backend/src/posts/posts.service.ts:252-259 | the slug keeps exactly the letters and digits of the lower-cased title, in order |
| Slugs.CommaSeparatedWords | backend/src/posts/posts.service.ts:252-259 | two ASCII words written "w1, w2!" give lower(w1) + "-" + lower(w2) |
| Slugs.HelloWorldSlug | backend/src/posts/posts.service.ts:252-259 | "Hello, World!" gives "hello-world" |
| Slugs.PaddedWord | backend/src/posts/posts.service.ts:252-259 | a word padded with one space each side gives hyphens at both ends, which the late `trim` cannot remove |
| Slugs.EdgeHyphensKept | backend/src/posts/posts.service.ts:252-259 | " Hi " gives "-hi-" |
| Errors.CatchAll | backend/src/posts/posts.service.ts:96-99 | a `catch` block that rethrows as InternalServerError: success passes through unchanged, and every exception becomes an InternalServerError with the block's message |
| Errors.CatchAllExcept | backend/src/categories/categories.service.ts:56-62 | a `catch` block that rethrows one kind of exception as it is: success and that kind pass through unchanged, and any other exception becomes an InternalServerError with the block's message |
| Text.SkipWhile | backend/src/posts/posts.service.ts:258 | skipping leading characters returns a suffix whose first character stops the skip, after only skipped characters |
| Text.NatToDecimal | backend/src/posts/posts.service.ts:266 | the rendering of a number is a non-empty digit string without a leading zero |
| Text.DecimalRoundTrip | backend/src/posts/posts.service.ts:266 | reading the rendering back gives the number |
| Text.DecimalInjective | backend/src/categories/categories.service.ts:148 | different counts render differently |
| Reading.Split | backend/src/posts/posts.service.ts:264 | `split(/\s+/)` yields at least one piece, and no piece holds whitespace |
| Reading.SplitKeepsText | backend/src/posts/posts.service.ts:264 | the pieces put together are the content without its whitespace |
| Reading.WordCountIsRunsPlusOne | backend/src/posts/posts.service.ts:264 | the word count is one more than the number of whitespace runs, so empty pieces at the ends count |
| Reading.Minutes | backend/src/posts/posts.service.ts:263-265 | the minutes are the least number whose 200-word pages cover the words |
| Reading.CalculateReadingTime | backend/src/posts/posts.service.ts:262-267 | the text is a decimal number m, without a leading zero, followed by " min read", with m at least one and the least whole number of 200-word minutes covering the word count |
| Reading.ReadingTimeBounds | backend/src/posts/posts.service.ts:262-267 | the estimate is at least one minute and is the ceiling of the word count over 200 |
| Reading.LabelRoundTrip | backend/src/posts/posts.service.ts:266 | the label is the minutes in decimal followed by " min read", and reads back to the minutes |
| Reading.EmptyContent | backend/src/posts/posts.service.ts:262-267 | empty content is one word, "1 min read" |
| Reading.EdgeWhitespaceCounts | backend/src/posts/posts.service.ts:264 | " a b " counts four words |
| Schema.PostCount | backend/src/categories/categories.service.ts:142-144 | the count of posts in a category is zero exactly when no post of any author refers to it |
| Posts.GetAllPosts | backend/src/posts/posts.service.ts:32-50 | the public listing holds exactly the published posts, unchanged |
| Posts.GetAllPostsAdmin | backend/src/posts/posts.service.ts:53-68 | the author's listing holds exactly that author's posts, of every status |
| Posts.GetPostById | backend/src/posts/posts.service.ts:103-126 | found exactly when the key exists; the NotFound reaches the caller as "Failed to get post" |
| Posts.CreatedPostFoundById | backend/src/posts/posts.service.ts:103-126 | a post just created is found by its key, exactly as created |
| Posts.DeletedPostNotFound | backend/src/posts/posts.service.ts:103-126 | after its author deletes a post, the lookup by key answers "Failed to get post" |
| Posts.PostWithSlug | backend/src/posts/posts.service.ts:73-74 | the unique slug index makes the lookup by slug a single row |
| Posts.GetPostBySlug | backend/src/posts/posts.service.ts:71-100 | succeeds exactly for a stored slug and returns the row as read; the stored view count of that post alone goes up by one; a miss changes nothing |
| Posts.ReadsCountViews | backend/src/posts/posts.service.ts:89-95 | two reads by slug raise the stored count by two, and the second returns the count the first left |
| Posts.CreatePost | backend/src/posts/posts.service.ts:129-168 | fails, changing nothing, exactly on a taken slug or a missing author or category; otherwise stores one new post with zero views, the caller as author, status as given else draft, reading time as given else computed |
| Posts.InsertPostValid | backend/src/posts/posts.service.ts:142-154 | inserting a post with a free slug, existing author and category, under the next key keeps the schema's guarantees |
| Posts.CreatedPostFoundBySlug | backend/src/posts/posts.service.ts:132-137 | a post just created is found by the slug of its title |
| Posts.NewDraftStaysPrivate | backend/src/posts/posts.service.ts:148 | a post created without status leaves the public listing as it was and joins its author's listing |
| Posts.ListingsAfterInsert | backend/src/posts/posts.service.ts:32-68 | a new unpublished post does not show publicly; a new post shows in its author's listing |
| Posts.UpdatePost | backend/src/posts/posts.service.ts:171-227 | fails, changing nothing, when the post is missing, another author's, renamed onto another post's slug, or moved to a missing category; otherwise only that post changes, each field only for a truthy value, the slug only on a real rename, the reading time only from new content |
| Posts.ReplacePostValid | backend/src/posts/posts.service.ts:202-211 | replacing a post by a version with the same key and author, a slug no other post holds and an existing category keeps the schema's guarantees |
| Posts.UpdateIdempotent | backend/src/posts/posts.service.ts:183-211 | repeating a successful update changes nothing more |
| Posts.FalsyUpdateChangesNothing | backend/src/posts/posts.service.ts:197-211 | an update with no truthy field and no status leaves the store as it was, whatever reading time it carries |
| Posts.DeletePost | backend/src/posts/posts.service.ts:230-249 | removes exactly that post when the caller is its author; otherwise changes nothing |
| Posts.DeleteUndoesCreate | backend/src/posts/posts.service.ts:242 | deleting a post just created, as its author, restores the posts table |
| Posts.DeleteLeavesOtherListings | backend/src/posts/posts.service.ts:53-68 | a delete removes the post from its author's listing and from no other author's |
| Categories.GetAllCategories | backend/src/categories/categories.service.ts:22-37 | lists exactly the user's categories, each as stored, with a count equal to the number of posts of any author filed under it, so zero exactly when no post refers to it |
| Categories.GetCategoryById | backend/src/categories/categories.service.ts:40-63 | found only when key and owner both match, with the row as stored and the number of posts of any author filed under it; otherwise NotFound reaches the caller unchanged |
| Categories.ListingAgreesWithLookup | backend/src/categories/categories.service.ts:22-63 | a category is listed for a user exactly when the lookup finds it, with the same row and count |
| Categories.CreateCategory | backend/src/categories/categories.service.ts:66-90 | fails, changing nothing, exactly when the same user already owns the slug; otherwise adds one category; one user's slugs stay distinct |
| Categories.InsertCategoryValid | backend/src/categories/categories.service.ts:78-85 | inserting a category under the next key with a slug its owner does not hold keeps the schema's guarantees and one owner's slugs distinct |
| Categories.SameNameForTwoOwners | backend/src/categories/categories.service.ts:70-76 | another user's identical slug does not block a create, while the same user's does |
| Categories.ReplaceCategoryValid | backend/src/categories/categories.service.ts:117-124 | replacing a category by a version with the same key and owner, whose slug is unchanged or held by no other category of that owner, keeps the schema's guarantees and one owner's slugs distinct |
| Categories.UpdateCategory | backend/src/categories/categories.service.ts:93-129 | fails, changing nothing, for a category the user does not own or a rename onto another of their slugs; otherwise a truthy name replaces the old, the slug changes only on a real rename, one user's slugs stay distinct |
| Categories.NotFoundOnlyFromLookup | backend/src/categories/categories.service.ts:95-101 | for someone else's category the bodies throw NotFound, which update and delete rewrap while the lookup keeps it |
| Categories.DeleteCategory | backend/src/categories/categories.service.ts:132-161 | removes the category exactly when the user owns it and no post of any author refers to it; otherwise changes nothing |
| Categories.InUseMessage | backend/src/categories/categories.service.ts:147-149 | the in-use message is a fixed prefix, the post count in decimal without a leading zero, and a fixed suffix, and the count reads back from it, so the message is determined by the count |
| Categories.InUseMessageInjective | backend/src/categories/categories.service.ts:147-149 | the in-use message determines the count it reports |
| Categories.InUseConflictIsSwallowed | backend/src/categories/categories.service.ts:142-160 | deleting a category in use throws a Conflict reporting the post count, and the caller gets only "Failed to delete category" |
| Categories.DeleteUndoesCreate | backend/src/categories/categories.service.ts:152-156 | a category just created has no posts, so its owner can delete it, restoring the table |
| Categories.PostBlocksDelete | backend/src/categories/categories.service.ts:142-150 | once any author files a post under a category, no one can delete it |
| Auth.UserWithEmail | backend/src/auth/auth.service.ts:59-61 | the unique email index makes the lookup by email a single row |
| Auth.Register | backend/src/auth/auth.service.ts:21-54 | fails, changing nothing, exactly when the email is taken; otherwise stores one user with the hash of the password and answers with id, email and name only |
| Auth.RegisterTwice | backend/src/auth/auth.service.ts:23-29 | registering an email a second time fails and keeps the store, so emails stay unique |
| Auth.Login | backend/src/auth/auth.service.ts:57-92 | succeeds exactly when the user with that email has a hash the password matches; answers with that user without the password and a token that signs exactly `{ sub: id, email }` (`generateToken`, lines 122-125) |
| Auth.LoginFailuresAlike | backend/src/auth/auth.service.ts:63-74 | an unknown email and a wrong password throw the same exception and reach the caller as the same error |
| Auth.RegisterThenLogin | backend/src/auth/auth.service.ts:31-36 | given that a password matches its own hash, a user just registered logs in with the same credentials |
| Auth.GetProfile | backend/src/auth/auth.service.ts:95-119 | returns the id, email, name and creation time of a stored user; otherwise Unauthorized reaches the caller unchanged |
| Auth.TokenSubjectHasProfile | backend/src/auth/auth.service.ts:76-87 | the subject of a login's token has a profile with the email the token signs |

## Left out

- Ordering: `orderBy: { createdAt: 'desc' }` in the listings is not modelled. A listing is the map of its rows by key, so it states which rows appear but not their order.
- Response shaping: the `include`/`select` joins of `User` and `Category` onto posts are not modelled. A post carries only `authorId` and `categoryId`.
- Timestamps: the `updatedAt: new Date()` stamps, and the creation times of posts and categories, are not modelled. Only the ordering, left out above, reads them.
- Category owner: `Category.userId` is not checked against the users table. No service reads that relation.
- bcrypt: the salt is not modelled, and neither is the cost factor 10. `hash` is a function parameter, so the same password hashes alike within one model.
- JWT: the signature format and the 7-day expiry in backend/src/auth/auth.module.ts are left out. Only the payload is modelled.
- Database failures: a lost connection and other failures unrelated to the data are not modelled. Because of that, the `catch` blocks of `getAllPosts`, `getAllPostsAdmin` and `getAllCategories` ("Failed to get posts", "Failed to get categories") are unreachable in the model.
- Logging: the `console.error` calls are not modelled.
- Concurrency: the gap between each uniqueness check and the write that follows is not modelled. Every service call is one atomic step.
- Above the services: controllers, `ParseIntPipe`, the JWT guard and the frontend are not modelled.
- Request bodies: every body is taken to be well-typed, with every required property present (`CreatePostData`, `UpdatePostData`, `RegisterData`, `CreateCategory`'s `name: string`). Nothing in the source checks this: the DTOs are TypeScript interfaces and no validation pipe is installed. A body that breaks it typically ends in a TypeError inside the `try` block, which the `catch` block turns into the method's "Failed to …" error. Examples are a `createPost` without `title`, or a numeric `title` or `name` on update, both of which make `generateSlug` throw.
- Unicode strings: strings are sequences of Unicode scalar values, so JavaScript's lone UTF-16 surrogates cannot occur. The slug filter would delete them anyway.
- Posts.CreatePost: the existence of the author and the category is inferred from the relations the service `include`s.
- Slugs.Lower: it is not JavaScript's `toLowerCase` beyond ASCII. It leaves É, Σ and Д as they are, and lowers U+0130 to one character where JavaScript gives two. Only `StripDisallowed(Lower(s))` agrees with the source, because the filter deletes every character where the two differ.
- Integer width: `Schema.Id` and `Post.viewCount` are unbounded. If the schema file declares them as 32-bit `Int` columns, a route id of 2^31 or more makes the database client throw, so `getCategoryById` would answer "Failed to get category" rather than NotFound, and the view increment on a post at 2^31-1 views would fail. The column types are not known here.
- Reading.Minutes: `Math.ceil(wordCount / 200)` is floating point, and it is modelled as exact integer ceiling division. The two agree for every word count below 2^53.
