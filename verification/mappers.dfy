/**
 * The conversions of `Posts.kt` between the wire records, the persisted rows and the domain
 * model. They are total: absent wire values are replaced by fixed defaults.
 */
module Mappers {
  import opened Common
  import opened Models
  import opened Entities
  import Wire

  /** Kotlin's `Iterable.map`: one result per element, in the same order. */
  function MapSeq<A, B>(f: A -> B, xs: seq<A>): (r: seq<B>)
    ensures |r| == |xs|
    ensures forall i | 0 <= i < |xs| :: r[i] == f(xs[i])
  {
    if xs == [] then [] else [f(xs[0])] + MapSeq(f, xs[1..])
  }

  /** Mapping with a function and then with its left inverse gives the list back. */
  lemma MapSeqInverse<A, B>(f: A -> B, g: B -> A, xs: seq<A>)
    requires forall i | 0 <= i < |xs| :: g(f(xs[i])) == xs[i]
    ensures MapSeq(g, MapSeq(f, xs)) == xs
  {
  }

  // ---------------------------------------------------------------------------------------
  // Field correspondences

  /** The twelve scalar columns of `e` hold exactly the scalar fields of `p` (`html` holds `content`). */
  predicate ScalarsMatch(p: Post, e: PostEntity) {
    && e.id == p.id
    && e.slug == p.slug
    && e.title == p.title
    && e.html == p.content
    && e.featureImage == p.featureImage
    && e.status == p.status
    && e.visibility == p.visibility
    && e.createdAt == p.createdAt
    && e.updatedAt == p.updatedAt
    && e.publishedAt == p.publishedAt
    && e.url == p.url
    && e.excerpt == p.excerpt
  }

  /** The scalar fields of a post determine its row completely: a row holds nothing else. */
  lemma ScalarsDetermineRow(p: Post, e1: PostEntity, e2: PostEntity)
    requires ScalarsMatch(p, e1) && ScalarsMatch(p, e2)
    ensures e1 == e2
  {
  }

  predicate SameAuthor(a: Author, id: string, name: string, profileImage: Option<string>, slug: string) {
    a.id == id && a.name == name && a.profileImage == profileImage && a.slug == slug
  }

  predicate SameTag(t: Tag, id: string, name: string, slug: string) {
    t.id == id && t.name == name && t.slug == slug
  }

  // ---------------------------------------------------------------------------------------
  // Persisted rows -> domain

  function TagEntityToTag(t: TagEntity): (r: Tag)
    ensures SameTag(r, t.id, t.name, t.slug)
  {
    Tag(id := t.id, name := t.name, slug := t.slug)
  }

  function AuthorEntityToAuthor(a: AuthorEntity): (r: Author)
    ensures SameAuthor(r, a.id, a.name, a.profileImage, a.slug)
  {
    Author(id := a.id, name := a.name, profileImage := a.profileImage, slug := a.slug)
  }

  /** `PostWithAuthorsAndTags.toPost`: the row's scalars, and the joined rows mapped one by one, in order. */
  function PostWithAuthorsAndTagsToPost(pw: PostWithAuthorsAndTags): (r: Post)
    ensures ScalarsMatch(r, pw.post)
    ensures |r.authors| == |pw.authors|
    ensures forall i | 0 <= i < |pw.authors| ::
              SameAuthor(r.authors[i], pw.authors[i].id, pw.authors[i].name, pw.authors[i].profileImage,
                         pw.authors[i].slug)
    ensures |r.tags| == |pw.tags|
    ensures forall i | 0 <= i < |pw.tags| :: SameTag(r.tags[i], pw.tags[i].id, pw.tags[i].name, pw.tags[i].slug)
  {
    Post(
      id := pw.post.id,
      slug := pw.post.slug,
      title := pw.post.title,
      content := pw.post.html,
      featureImage := pw.post.featureImage,
      status := pw.post.status,
      createdAt := pw.post.createdAt,
      updatedAt := pw.post.updatedAt,
      publishedAt := pw.post.publishedAt,
      url := pw.post.url,
      visibility := pw.post.visibility,
      excerpt := pw.post.excerpt,
      authors := MapSeq(AuthorEntityToAuthor, pw.authors),
      tags := MapSeq(TagEntityToTag, pw.tags))
  }

  // ---------------------------------------------------------------------------------------
  // Domain -> persisted row

  /** `Post.toPostEntity`: the twelve scalars, positionally; authors and tags are not carried. */
  function PostToPostEntity(p: Post): (r: PostEntity)
    ensures ScalarsMatch(p, r)
  {
    PostEntity(p.id, p.slug, p.title, p.content, p.featureImage, p.status, p.visibility, p.createdAt,
               p.updatedAt, p.publishedAt, p.url, p.excerpt)
  }

  /** The row of a post does not depend on its authors or tags. */
  lemma PostEntityIgnoresRelations(p: Post, authors: seq<Author>, tags: seq<Tag>)
    ensures PostToPostEntity(p.(authors := authors, tags := tags)) == PostToPostEntity(p)
  {
  }

  /** The row form of an author, as the store keeps it. */
  function AuthorToEntity(a: Author): AuthorEntity {
    AuthorEntity(a.id, a.name, a.profileImage, a.slug)
  }

  /** The row form of a tag, as the store keeps it. */
  function TagToEntity(t: Tag): TagEntity {
    TagEntity(t.id, t.name, t.slug)
  }

  /** Persisting a post's scalars, re-attaching the row forms of its authors and tags, and reading it back gives the post. */
  lemma PostEntityRoundTrip(p: Post)
    ensures PostWithAuthorsAndTagsToPost(
              PostWithAuthorsAndTags(PostToPostEntity(p), MapSeq(AuthorToEntity, p.authors), MapSeq(TagToEntity, p.tags)))
            == p
  {
    MapSeqInverse(AuthorToEntity, AuthorEntityToAuthor, p.authors);
    MapSeqInverse(TagToEntity, TagEntityToTag, p.tags);
  }

  // ---------------------------------------------------------------------------------------
  // Wire -> domain

  function AuthorDtoToAuthor(a: Wire.AuthorDto): (r: Author)
    ensures SameAuthor(r, a.id, a.name, a.profileImage, a.slug)
  {
    Author(id := a.id, name := a.name, profileImage := a.profileImage, slug := a.slug)
  }

  /** `TagDto.toTag`: a missing id or slug becomes `""`; the name is kept. */
  function TagDtoToTag(t: Wire.TagDto): (r: Tag)
    ensures r.name == t.name
    ensures t.id.Some? ==> r.id == t.id.value
    ensures t.id.None? ==> r.id == ""
    ensures t.slug.Some? ==> r.slug == t.slug.value
    ensures t.slug.None? ==> r.slug == ""
  {
    Tag(id := t.id.OrElse(""), name := t.name, slug := t.slug.OrElse(""))
  }

  /** `PostDto.toPost`: copies what the wire carries, defaults the rest, and always leaves `createdAt` empty. */
  function PostDtoToPost(d: Wire.PostDto): (r: Post)
    ensures r.createdAt == ""
    ensures && r.id == d.id && r.title == d.title && r.status == d.status && r.url == d.url
            && r.featureImage == d.featureImage && r.publishedAt == d.publishedAt && r.updatedAt == d.updatedAt
            && r.visibility == d.visibility && r.excerpt == d.excerpt
    ensures d.slug.Some? ==> r.slug == d.slug.value
    ensures d.slug.None? ==> r.slug == ""
    ensures d.content.Some? ==> r.content == d.content.value
    ensures d.content.None? ==> r.content == ""
    ensures d.authors.None? ==> r.authors == []
    ensures d.authors.Some? ==> && |r.authors| == |d.authors.value|
                                && forall i | 0 <= i < |r.authors| ::
                                     var a := d.authors.value[i];
                                     SameAuthor(r.authors[i], a.id, a.name, a.profileImage, a.slug)
    ensures d.tags.None? ==> r.tags == []
    ensures d.tags.Some? ==> && |r.tags| == |d.tags.value|
                             && forall i | 0 <= i < |r.tags| :: r.tags[i] == TagDtoToTag(d.tags.value[i])
  {
    Post(
      id := d.id,
      slug := d.slug.OrElse(""),
      createdAt := "",
      title := d.title,
      content := d.content.OrElse(""),
      featureImage := d.featureImage,
      status := d.status,
      publishedAt := d.publishedAt,
      updatedAt := d.updatedAt,
      url := d.url,
      visibility := d.visibility,
      excerpt := d.excerpt,
      authors := if d.authors.Some? then MapSeq(AuthorDtoToAuthor, d.authors.value) else [],
      tags := if d.tags.Some? then MapSeq(TagDtoToTag, d.tags.value) else [])
  }

  /** The wire fields `toPost` ignores (`uuid`, `lexical`, `mobiledoc`) never influence the post. */
  lemma PostDtoToPostIgnoresExtras(d: Wire.PostDto, uuid: Option<string>, lexical: Option<string>, mobiledoc: Option<string>)
    ensures PostDtoToPost(d.(uuid := uuid, lexical := lexical, mobiledoc := mobiledoc)) == PostDtoToPost(d)
  {
  }

  /** An author object whose `profile_image` is `null` maps to an author without a profile image. */
  lemma DecodedAuthorWithoutImage(id: string, name: string, slug: string)
    ensures var obj := map["id" := Wire.JString(id), "name" := Wire.JString(name), "slug" := Wire.JString(slug),
                           "profile_image" := Wire.JNull];
            && Wire.DecodeAuthorDto(obj).Ok?
            && AuthorDtoToAuthor(Wire.DecodeAuthorDto(obj).value) == Author(id, name, None, slug)
  {
  }

  /** A decoded author carries into the domain exactly the strings of the object, an absent image as `None`. */
  lemma DecodedAuthorFields(obj: Wire.JsonObject, d: Wire.AuthorDto)
    requires Wire.DecodeAuthorDto(obj) == Ok(d)
    ensures var a := AuthorDtoToAuthor(d);
            && Wire.Holds(obj, "id", a.id) && Wire.Holds(obj, "name", a.name) && Wire.Holds(obj, "slug", a.slug)
            && (a.profileImage.None? <==> obj["profile_image"] == Wire.JNull)
  {
  }

  /** A tag object carrying only its name maps to a tag with empty id and slug. */
  lemma DecodedTagWithOnlyName(name: string)
    ensures var obj := map["name" := Wire.JString(name)];
            && Wire.DecodeTagDto(obj).Ok?
            && TagDtoToTag(Wire.DecodeTagDto(obj).value) == Tag("", name, "")
  {
  }

  /** A decoded tag's id is the object's `id` string, or `""` when the key is missing or `null`; likewise its slug. */
  lemma DecodedTagFields(obj: Wire.JsonObject, d: Wire.TagDto)
    requires Wire.DecodeTagDto(obj) == Ok(d)
    ensures var t := TagDtoToTag(d);
            && Wire.Holds(obj, "name", t.name)
            && ("id" in obj && obj["id"].JString? ==> t.id == obj["id"].str)
            && ("id" !in obj || obj["id"] == Wire.JNull ==> t.id == "")
            && ("slug" in obj && obj["slug"].JString? ==> t.slug == obj["slug"].str)
            && ("slug" !in obj || obj["slug"] == Wire.JNull ==> t.slug == "")
  {
  }

  /** A post decoded from a response object that carries no `html` key has empty content, and never a creation time. */
  lemma DecodedPostDefaults(obj: Wire.JsonObject, d: Wire.PostDto)
    requires Wire.DecodePostDto(obj) == Ok(d)
    requires "html" !in obj && "slug" !in obj
    ensures PostDtoToPost(d).content == "" && PostDtoToPost(d).slug == "" && PostDtoToPost(d).createdAt == ""
  {
  }
}
