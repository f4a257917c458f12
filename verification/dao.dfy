/**
 * The local store behind `PostDao`, `AuthorDao`, `TagDao`, `PostAuthorCrossRefDao` and
 * `PostTagCrossRefDao`: each operation is given the meaning of its Room annotation or SQL text.
 */
module Dao {
  import opened Common
  import opened Entities
  import Models
  import Mappers
  import Table

  /** The five tables: `posts`, `authors` and `tags` keyed by id; the two cross-reference tables keyed by the whole pair. */
  datatype Db = Db(
    posts: map<string, PostEntity>,
    authors: map<string, AuthorEntity>,
    tags: map<string, TagEntity>,
    postAuthors: set<PostAuthorCrossRef>,
    postTags: set<PostTagCrossRef>)

  const Empty: Db := Db(map[], map[], map[], {}, {})

  function PostKey(p: PostEntity): string { p.id }
  function AuthorKey(a: AuthorEntity): string { a.id }
  function TagKey(t: TagEntity): string { t.id }

  /** Every row is stored under its own primary key. */
  predicate WellKeyed(db: Db) {
    Table.Keyed(db.posts, PostKey) && Table.Keyed(db.authors, AuthorKey) && Table.Keyed(db.tags, TagKey)
  }

  // ---------------------------------------------------------------------------------------
  // PostDao

  /** `insertPost`: REPLACE-upsert into `posts`. */
  function InsertPost(db: Db, post: PostEntity): (r: Db)
    ensures post.id in r.posts && r.posts[post.id] == post
    ensures Table.AgreeExcept(db.posts, r.posts, post.id)
    ensures r.(posts := db.posts) == db
  {
    db.(posts := Table.Upsert(db.posts, PostKey, post))
  }

  /** `insertPosts`: the rows are upserted in list order, so the last row with a given id wins. */
  function InsertPosts(db: Db, posts: seq<PostEntity>): (r: Db)
    ensures Table.LastRowWins(db.posts, r.posts, PostKey, posts)
    ensures r.(posts := db.posts) == db
  {
    Table.UpsertAllLastRowWins(db.posts, PostKey, posts);
    db.(posts := Table.UpsertAll(db.posts, PostKey, posts))
  }

  /** `updatePost`: overwrites the row with the same id if there is one; never inserts. */
  function UpdatePost(db: Db, post: PostEntity): (r: Db)
    ensures r.posts.Keys == db.posts.Keys
    ensures post.id in db.posts ==> r.posts[post.id] == post
    ensures post.id !in db.posts ==> r == db
    ensures Table.AgreeExcept(db.posts, r.posts, post.id)
    ensures r.(posts := db.posts) == db
  {
    db.(posts := Table.UpdateExisting(db.posts, PostKey, post))
  }

  /** `updatePosts`: each row overwrites the stored row with its id, in list order; ids not stored are ignored. */
  function UpdatePosts(db: Db, posts: seq<PostEntity>): (r: Db)
    ensures r.posts.Keys == db.posts.Keys
    ensures forall k | k in db.posts :: r.posts[k] == Table.LastWithKey(posts, PostKey, k).OrElse(db.posts[k])
    ensures r.(posts := db.posts) == db
  {
    Table.UpdateAllLastRowWins(db.posts, PostKey, posts);
    db.(posts := Table.UpdateAll(db.posts, PostKey, posts))
  }

  /** `PostDao.clearAll`: empties `posts` and touches no other table. */
  function ClearPosts(db: Db): (r: Db)
    ensures forall k :: k !in r.posts
    ensures r.(posts := db.posts) == db
  {
    db.(posts := map[])
  }

  /** The author rows Room's junction read reaches from `postId`: one per cross-reference whose author row exists. */
  function JoinedAuthors(db: Db, postId: string): set<AuthorEntity> {
    set c | c in db.postAuthors && c.postId == postId && c.authorId in db.authors :: db.authors[c.authorId]
  }

  /** The tag rows Room's junction read reaches from `postId`: one per cross-reference whose tag row exists. */
  function JoinedTags(db: Db, postId: string): set<TagEntity> {
    set c | c in db.postTags && c.postId == postId && c.tagId in db.tags :: db.tags[c.tagId]
  }

  /** `pw` is the row stored under `id`, with each of its joined authors and tags exactly once, in some order. */
  ghost predicate IsJoined(db: Db, id: string, pw: PostWithAuthorsAndTags) {
    && id in db.posts && pw.post == db.posts[id]
    && (forall a :: a in pw.authors <==> a in JoinedAuthors(db, id)) && Table.Distinct(pw.authors)
    && (forall t :: t in pw.tags <==> t in JoinedTags(db, id)) && Table.Distinct(pw.tags)
  }

  /** The relation read Room performs for one stored post. */
  method Join(db: Db, id: string) returns (pw: PostWithAuthorsAndTags)
    requires id in db.posts
    ensures IsJoined(db, id, pw)
  {
    var authors := Table.Enumerate(JoinedAuthors(db, id));
    var tags := Table.Enumerate(JoinedTags(db, id));
    pw := PostWithAuthorsAndTags(db.posts[id], authors, tags);
  }

  /** `getPostWithAuthorsAndTags` (its current value): the post with that id with its relations, or nothing. */
  method GetPostWithAuthorsAndTags(db: Db, id: string) returns (r: Option<PostWithAuthorsAndTags>)
    requires WellKeyed(db)
    ensures r.None? <==> id !in db.posts
    ensures r.Some? ==> r.value.post.id == id && IsJoined(db, id, r.value)
  {
    if id in db.posts {
      var pw := Join(db, id);
      r := Some(pw);
    } else {
      r := None;
    }
  }

  /** `getPostsByIds`: every stored post whose id is in `ids`, once each, with its relations. */
  method GetPostsByIds(db: Db, ids: seq<string>) returns (r: seq<PostWithAuthorsAndTags>)
    requires WellKeyed(db)
    ensures forall i | 0 <= i < |r| :: r[i].post.id in ids && IsJoined(db, r[i].post.id, r[i])
    ensures forall id | id in ids && id in db.posts :: exists i | 0 <= i < |r| :: r[i].post.id == id
    ensures forall i, j | 0 <= i < j < |r| :: r[i].post.id != r[j].post.id
  {
    var keys := Table.Enumerate(set id | id in db.posts && id in ids);
    r := [];
    var n := 0;
    while n < |keys|
      invariant n <= |keys|
      invariant |r| == n
      invariant forall i | 0 <= i < n :: r[i].post.id == keys[i] && IsJoined(db, keys[i], r[i])
    {
      assert keys[n] in keys;
      var pw := Join(db, keys[n]);
      r := r + [pw];
      n := n + 1;
    }
    forall i | 0 <= i < |r| ensures r[i].post.id in ids {
      assert keys[i] in keys;
    }
    forall id | id in ids && id in db.posts
      ensures exists i | 0 <= i < |r| :: r[i].post.id == id
    {
      assert id in keys;
      var i :| 0 <= i < |keys| && keys[i] == id;
      assert r[i].post.id == id;
    }
  }

  // ---------------------------------------------------------------------------------------
  // AuthorDao and TagDao

  /** `insertAuthor`: REPLACE-upsert into `authors`. */
  function InsertAuthor(db: Db, author: AuthorEntity): (r: Db)
    ensures author.id in r.authors && r.authors[author.id] == author
    ensures Table.AgreeExcept(db.authors, r.authors, author.id)
    ensures r.(authors := db.authors) == db
  {
    db.(authors := Table.Upsert(db.authors, AuthorKey, author))
  }

  /** `insertAuthors`: the rows are upserted in list order, so the last row with a given id wins. */
  function InsertAuthors(db: Db, authors: seq<AuthorEntity>): (r: Db)
    ensures Table.LastRowWins(db.authors, r.authors, AuthorKey, authors)
    ensures r.(authors := db.authors) == db
  {
    Table.UpsertAllLastRowWins(db.authors, AuthorKey, authors);
    db.(authors := Table.UpsertAll(db.authors, AuthorKey, authors))
  }

  /** `AuthorDao.clearAll`: empties `authors` and touches no other table. */
  function ClearAuthors(db: Db): (r: Db)
    ensures forall k :: k !in r.authors
    ensures r.(authors := db.authors) == db
  {
    db.(authors := map[])
  }

  /** `insertTag`: REPLACE-upsert into `tags`. */
  function InsertTag(db: Db, tag: TagEntity): (r: Db)
    ensures tag.id in r.tags && r.tags[tag.id] == tag
    ensures Table.AgreeExcept(db.tags, r.tags, tag.id)
    ensures r.(tags := db.tags) == db
  {
    db.(tags := Table.Upsert(db.tags, TagKey, tag))
  }

  /** `insertTags`: the rows are upserted in list order, so the last row with a given id wins. */
  function InsertTags(db: Db, tags: seq<TagEntity>): (r: Db)
    ensures Table.LastRowWins(db.tags, r.tags, TagKey, tags)
    ensures r.(tags := db.tags) == db
  {
    Table.UpsertAllLastRowWins(db.tags, TagKey, tags);
    db.(tags := Table.UpsertAll(db.tags, TagKey, tags))
  }

  /** `TagDao.clearAll`: empties `tags` and touches no other table. */
  function ClearTags(db: Db): (r: Db)
    ensures forall k :: k !in r.tags
    ensures r.(tags := db.tags) == db
  {
    db.(tags := map[])
  }

  // ---------------------------------------------------------------------------------------
  // Cross-reference DAOs

  /** `insertPostAuthorCrossRef` of one pair: afterwards the pair is present and no other pair changed. */
  function InsertPostAuthorCrossRef(db: Db, c: PostAuthorCrossRef): (r: Db)
    ensures c in r.postAuthors
    ensures forall x | x != c :: x in r.postAuthors <==> x in db.postAuthors
    ensures r.(postAuthors := db.postAuthors) == db
  {
    db.(postAuthors := db.postAuthors + {c})
  }

  /** `insertPostAuthorCrossRef` of a list: adds exactly the listed pairs. */
  function InsertPostAuthorCrossRefs(db: Db, cs: seq<PostAuthorCrossRef>): (r: Db)
    ensures forall x :: x in r.postAuthors <==> x in db.postAuthors || x in cs
    ensures r.(postAuthors := db.postAuthors) == db
  {
    Table.InsertAllIsUnion(db.postAuthors, cs);
    db.(postAuthors := Table.InsertAll(db.postAuthors, cs))
  }

  /** `PostAuthorCrossRefDao.clearAll`: empties `post_author_cross_ref` and touches no other table. */
  function ClearPostAuthorCrossRefs(db: Db): (r: Db)
    ensures forall x :: x !in r.postAuthors
    ensures r.(postAuthors := db.postAuthors) == db
  {
    db.(postAuthors := {})
  }

  /** `insertPostTagCrossRef` of one pair: afterwards the pair is present and no other pair changed. */
  function InsertPostTagCrossRef(db: Db, c: PostTagCrossRef): (r: Db)
    ensures c in r.postTags
    ensures forall x | x != c :: x in r.postTags <==> x in db.postTags
    ensures r.(postTags := db.postTags) == db
  {
    db.(postTags := db.postTags + {c})
  }

  /** `insertPostTagCrossRef` of a list: adds exactly the listed pairs. */
  function InsertPostTagCrossRefs(db: Db, cs: seq<PostTagCrossRef>): (r: Db)
    ensures forall x :: x in r.postTags <==> x in db.postTags || x in cs
    ensures r.(postTags := db.postTags) == db
  {
    Table.InsertAllIsUnion(db.postTags, cs);
    db.(postTags := Table.InsertAll(db.postTags, cs))
  }

  /** `clearPostTagCrossRefs(postId)`: removes exactly the pairs of that post. */
  function ClearPostTagCrossRefsOf(db: Db, postId: string): (r: Db)
    ensures forall x :: x in r.postTags <==> x in db.postTags && x.postId != postId
    ensures r.(postTags := db.postTags) == db
  {
    db.(postTags := set x | x in db.postTags && x.postId != postId)
  }

  /** `PostTagCrossRefDao.clearAll`: empties `post_tag_cross_ref` and touches no other table. */
  function ClearPostTagCrossRefs(db: Db): (r: Db)
    ensures forall x :: x !in r.postTags
    ensures r.(postTags := db.postTags) == db
  {
    db.(postTags := {})
  }

  // ---------------------------------------------------------------------------------------
  // Properties

  /** The single-row inserts are idempotent. */
  lemma SingleInsertsIdempotent(db: Db, p: PostEntity, a: AuthorEntity, t: TagEntity,
                                pa: PostAuthorCrossRef, pt: PostTagCrossRef)
    ensures InsertPost(InsertPost(db, p), p) == InsertPost(db, p)
    ensures InsertAuthor(InsertAuthor(db, a), a) == InsertAuthor(db, a)
    ensures InsertTag(InsertTag(db, t), t) == InsertTag(db, t)
    ensures InsertPostAuthorCrossRef(InsertPostAuthorCrossRef(db, pa), pa) == InsertPostAuthorCrossRef(db, pa)
    ensures InsertPostTagCrossRef(InsertPostTagCrossRef(db, pt), pt) == InsertPostTagCrossRef(db, pt)
  {
    Table.UpsertIdempotent(db.posts, PostKey, p);
    Table.UpsertIdempotent(db.authors, AuthorKey, a);
    Table.UpsertIdempotent(db.tags, TagKey, t);
  }

  /** The list inserts are idempotent. */
  lemma BulkInsertsIdempotent(db: Db, ps: seq<PostEntity>, as_: seq<AuthorEntity>, ts: seq<TagEntity>,
                              pas: seq<PostAuthorCrossRef>, pts: seq<PostTagCrossRef>)
    ensures InsertPosts(InsertPosts(db, ps), ps) == InsertPosts(db, ps)
    ensures InsertAuthors(InsertAuthors(db, as_), as_) == InsertAuthors(db, as_)
    ensures InsertTags(InsertTags(db, ts), ts) == InsertTags(db, ts)
    ensures InsertPostAuthorCrossRefs(InsertPostAuthorCrossRefs(db, pas), pas) == InsertPostAuthorCrossRefs(db, pas)
    ensures InsertPostTagCrossRefs(InsertPostTagCrossRefs(db, pts), pts) == InsertPostTagCrossRefs(db, pts)
  {
    Table.UpsertAllIdempotent(db.posts, PostKey, ps);
    Table.UpsertAllIdempotent(db.authors, AuthorKey, as_);
    Table.UpsertAllIdempotent(db.tags, TagKey, ts);
  }

  /** `insertPosts` is `insertPost` applied to each row in turn. */
  lemma InsertPostsIsFold(db: Db, ps: seq<PostEntity>)
    requires ps != []
    ensures InsertPosts(db, ps) == InsertPosts(InsertPost(db, ps[0]), ps[1..])
  {
  }

  /** `insertAuthors` is `insertAuthor` applied to each row in turn. */
  lemma InsertAuthorsIsFold(db: Db, as_: seq<AuthorEntity>)
    requires as_ != []
    ensures InsertAuthors(db, as_) == InsertAuthors(InsertAuthor(db, as_[0]), as_[1..])
  {
  }

  /** `insertTags` is `insertTag` applied to each row in turn. */
  lemma InsertTagsIsFold(db: Db, ts: seq<TagEntity>)
    requires ts != []
    ensures InsertTags(db, ts) == InsertTags(InsertTag(db, ts[0]), ts[1..])
  {
  }

  /** The empty store, and the table-wide clears, keep each row under its own id. */
  lemma ClearsKeepWellKeyed(db: Db)
    requires WellKeyed(db)
    ensures WellKeyed(Empty)
    ensures WellKeyed(ClearPosts(db)) && WellKeyed(ClearAuthors(db)) && WellKeyed(ClearTags(db))
  {
  }

  /** The writes to `posts` keep each row under its own id. */
  lemma PostWritesKeepWellKeyed(db: Db, p: PostEntity, ps: seq<PostEntity>)
    requires WellKeyed(db)
    ensures WellKeyed(InsertPost(db, p)) && WellKeyed(InsertPosts(db, ps))
    ensures WellKeyed(UpdatePost(db, p)) && WellKeyed(UpdatePosts(db, ps))
  {
    Table.WritesKeepKeyed(db.posts, PostKey, ps);
  }

  /** The writes to `authors` and `tags` keep each row under its own id. */
  lemma AuthorAndTagWritesKeepWellKeyed(db: Db, a: AuthorEntity, as_: seq<AuthorEntity>, t: TagEntity, ts: seq<TagEntity>)
    requires WellKeyed(db)
    ensures WellKeyed(InsertAuthor(db, a)) && WellKeyed(InsertAuthors(db, as_))
    ensures WellKeyed(InsertTag(db, t)) && WellKeyed(InsertTags(db, ts))
  {
    Table.WritesKeepKeyed(db.authors, AuthorKey, as_);
    Table.WritesKeepKeyed(db.tags, TagKey, ts);
  }

  /**
   * Clearing one post's tag pairs and inserting a new list of pairs for it leaves that post
   * with exactly the listed pairs and every other post with the pairs it had.
   */
  lemma ReplacePostTags(db: Db, postId: string, cs: seq<PostTagCrossRef>)
    requires forall i | 0 <= i < |cs| :: cs[i].postId == postId
    ensures var r := InsertPostTagCrossRefs(ClearPostTagCrossRefsOf(db, postId), cs);
            && (forall x: PostTagCrossRef | x.postId == postId :: x in r.postTags <==> x in cs)
            && (forall x: PostTagCrossRef | x.postId != postId :: x in r.postTags <==> x in db.postTags)
  {
  }

  /** After `PostDao.clearAll` no post can be read back, but the cross-reference rows stay. */
  lemma ClearPostsOrphansCrossRefs(db: Db, id: string)
    ensures id !in ClearPosts(db).posts
    ensures JoinedAuthors(ClearPosts(db), id) == JoinedAuthors(db, id)
    ensures ClearPosts(db).postTags == db.postTags
  {
  }

  /** After `PostAuthorCrossRefDao.clearAll` no post is joined to any author. */
  lemma ClearPostAuthorCrossRefsUnjoins(db: Db, id: string)
    ensures JoinedAuthors(ClearPostAuthorCrossRefs(db), id) == {}
    ensures JoinedTags(ClearPostAuthorCrossRefs(db), id) == JoinedTags(db, id)
  {
  }

  /** After `PostTagCrossRefDao.clearAll` no post is joined to any tag. */
  lemma ClearPostTagCrossRefsUnjoins(db: Db, id: string)
    ensures JoinedTags(ClearPostTagCrossRefs(db), id) == {}
    ensures JoinedAuthors(ClearPostTagCrossRefs(db), id) == JoinedAuthors(db, id)
  {
  }

  /** After `clearPostTagCrossRefs(postId)` that post is joined to no tag, and every other post keeps its tags. */
  lemma ClearPostTagCrossRefsOfUnjoins(db: Db, postId: string, id: string)
    ensures JoinedTags(ClearPostTagCrossRefsOf(db, postId), postId) == {}
    ensures id != postId ==> JoinedTags(ClearPostTagCrossRefsOf(db, postId), id) == JoinedTags(db, id)
  {
  }

  /** After `AuthorDao.clearAll` no post is joined to any author, while the cross-reference rows stay. */
  lemma ClearAuthorsUnjoins(db: Db, id: string)
    ensures JoinedAuthors(ClearAuthors(db), id) == {}
    ensures JoinedTags(ClearAuthors(db), id) == JoinedTags(db, id)
    ensures ClearAuthors(db).postAuthors == db.postAuthors
  {
  }

  /** After `TagDao.clearAll` no post is joined to any tag, while the cross-reference rows stay. */
  lemma ClearTagsUnjoins(db: Db, id: string)
    ensures JoinedTags(ClearTags(db), id) == {}
    ensures JoinedAuthors(ClearTags(db), id) == JoinedAuthors(db, id)
    ensures ClearTags(db).postTags == db.postTags
  {
  }

  /** A post written through `toPostEntity` and read back with the row forms of its authors and tags is the same post. */
  lemma StoredPostReadsBack(db: Db, p: Models.Post)
    ensures var stored := InsertPost(db, Mappers.PostToPostEntity(p));
            && p.id in stored.posts
            && Mappers.PostWithAuthorsAndTagsToPost(
                 PostWithAuthorsAndTags(stored.posts[p.id],
                                        Mappers.MapSeq(Mappers.AuthorToEntity, p.authors),
                                        Mappers.MapSeq(Mappers.TagToEntity, p.tags)))
               == p
  {
    Mappers.PostEntityRoundTrip(p);
  }
}
