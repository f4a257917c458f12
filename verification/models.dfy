/**
 * The domain model the app works with (`com.ghostly.posts.models`): a post with its authors and
 * tags. The Kotlin classes are not modelled here; their fields and nullability
 * are the ones the mappers in `Posts.kt` read and write.
 */
module Models {
  import opened Common

  datatype Author = Author(id: string, name: string, profileImage: Option<string>, slug: string)

  /** A tag; `id` is remote-issued, `""` when never assigned, or a `temp_` placeholder for a tag added locally. */
  datatype Tag = Tag(id: string, name: string, slug: string)

  datatype Post = Post(
    id: string,
    slug: string,
    title: string,
    content: string,
    featureImage: Option<string>,
    status: string,
    createdAt: string,
    updatedAt: Option<string>,
    publishedAt: Option<string>,
    url: string,
    visibility: Option<string>,
    excerpt: Option<string>,
    authors: seq<Author>,
    tags: seq<Tag>)
}

/**
 * The persisted rows (`com.ghostly.database.entities`). `PostEntity` takes its twelve scalar
 * columns in the positional order `Post.toPostEntity` passes them; the rows of the two
 * cross-reference tables carry nothing but the pair of ids they link.
 */
module Entities {
  import opened Common

  datatype PostEntity = PostEntity(
    id: string,
    slug: string,
    title: string,
    html: string,
    featureImage: Option<string>,
    status: string,
    visibility: Option<string>,
    createdAt: string,
    updatedAt: Option<string>,
    publishedAt: Option<string>,
    url: string,
    excerpt: Option<string>)

  datatype AuthorEntity = AuthorEntity(id: string, name: string, profileImage: Option<string>, slug: string)

  datatype TagEntity = TagEntity(id: string, name: string, slug: string)

  datatype PostAuthorCrossRef = PostAuthorCrossRef(postId: string, authorId: string)

  datatype PostTagCrossRef = PostTagCrossRef(postId: string, tagId: string)

  /** A post row joined with the author and tag rows its cross-references point at. */
  datatype PostWithAuthorsAndTags = PostWithAuthorsAndTags(
    post: PostEntity,
    authors: seq<AuthorEntity>,
    tags: seq<TagEntity>)
}
