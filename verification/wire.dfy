/**
 * The wire records of the post update call (`UpdatePostModels.kt`): which properties a message
 * must carry, which ones default to absent, and the JSON key each property travels under.
 *
 * A JSON object is a map from keys to values. Decoding follows the declarations: a non-null
 * property without a default must be present with a value of its type; a nullable property
 * with the default `null` may be missing or `null`; a nullable property without a default
 * (`AuthorDto.profileImage`) must be present but may be `null`. Keys a record does not
 * declare are ignored. Encoding writes every present value and leaves out absent optional ones.
 */
module Wire {
  import opened Common

  datatype Json = JNull | JString(str: string) | JArray(items: seq<Json>) | JObject(fields: map<string, Json>)

  type JsonObject = map<string, Json>

  datatype DecodeError = MissingField(key: string) | UnexpectedValue(key: string)

  type Decoded<T> = Result<T, DecodeError>

  datatype UpdatePostRequest = UpdatePostRequest(posts: seq<UpdatePostBody>)

  datatype UpdatePostBody = UpdatePostBody(
    id: string,
    title: string,
    content: string,
    excerpt: Option<string> := None,
    tags: Option<seq<TagDto>> := None,
    status: Option<string> := None,
    authorId: Option<string> := None,
    featureImage: Option<string> := None,
    updatedAt: Option<string> := None,
    visibility: Option<string> := None,
    publishedAt: Option<string> := None,
    url: Option<string> := None,
    slug: Option<string> := None)

  datatype TagDto = TagDto(id: Option<string> := None, name: string, slug: Option<string> := None)

  datatype UpdatePostResponse = UpdatePostResponse(posts: seq<PostDto>)

  datatype PostDto = PostDto(
    id: string,
    title: string,
    content: Option<string> := None,
    excerpt: Option<string> := None,
    featureImage: Option<string> := None,
    status: string,
    publishedAt: Option<string> := None,
    updatedAt: Option<string> := None,
    url: string,
    visibility: Option<string> := None,
    authors: Option<seq<AuthorDto>> := None,
    tags: Option<seq<TagDto>> := None,
    slug: Option<string> := None,
    uuid: Option<string> := None,
    lexical: Option<string> := None,
    mobiledoc: Option<string> := None)

  /** `profileImage` is nullable but has no default: its key must be present. */
  datatype AuthorDto = AuthorDto(id: string, name: string, profileImage: Option<string>, slug: string)

  // ---------------------------------------------------------------------------------------
  // Serial names

  /** The JSON key of a property: the `@SerialName` renames; every other property keeps its own name. */
  function SerialName(property: string): string {
    if property == "content" then "html"
    else if property == "featureImage" then "feature_image"
    else if property == "updatedAt" then "updated_at"
    else if property == "publishedAt" then "published_at"
    else if property == "authorId" then "author_id"
    else if property == "profileImage" then "profile_image"
    else property
  }

  const UpdatePostBodyProperties: seq<string> :=
    ["id", "title", "content", "excerpt", "tags", "status", "authorId", "featureImage", "updatedAt",
     "visibility", "publishedAt", "url", "slug"]

  const TagDtoProperties: seq<string> := ["id", "name", "slug"]

  const PostDtoProperties: seq<string> :=
    ["id", "title", "content", "excerpt", "featureImage", "status", "publishedAt", "updatedAt", "url",
     "visibility", "authors", "tags", "slug", "uuid", "lexical", "mobiledoc"]

  const AuthorDtoProperties: seq<string> := ["id", "name", "profileImage", "slug"]

  /** The JSON keys of a record's properties, in declaration order. */
  function Keys(properties: seq<string>): (r: seq<string>)
    ensures |r| == |properties|
    ensures forall i | 0 <= i < |properties| :: r[i] == SerialName(properties[i])
  {
    seq(|properties|, i requires 0 <= i < |properties| => SerialName(properties[i]))
  }

  /** No two properties of one record share a JSON key. */
  predicate KeysDistinct(properties: seq<string>) {
    var keys := Keys(properties);
    forall i, j | 0 <= i < j < |keys| :: keys[i] != keys[j]
  }

  /** The six `@SerialName` renames; every other property of the four records keeps its name. */
  lemma SerialNames()
    ensures SerialName("content") == "html"
    ensures SerialName("featureImage") == "feature_image"
    ensures SerialName("updatedAt") == "updated_at"
    ensures SerialName("publishedAt") == "published_at"
    ensures SerialName("authorId") == "author_id"
    ensures SerialName("profileImage") == "profile_image"
    ensures forall p | p in ["id", "title", "name", "excerpt", "tags", "authors", "status", "visibility",
                             "url", "slug", "uuid", "lexical", "mobiledoc", "posts"] :: SerialName(p) == p
  {
  }

  /** The keys the renames produce. */
  const RenameTargets: set<string> :=
    {"html", "feature_image", "updated_at", "published_at", "author_id", "profile_image"}

  /** Two properties share a key only if they are equal or one of them is spelled like a rename target. */
  lemma SerialNameCollision(p: string, q: string)
    requires p != q && SerialName(p) == SerialName(q)
    ensures p in RenameTargets || q in RenameTargets
  {
  }

  /** Distinct properties none of which is spelled like a rename target have distinct keys. */
  lemma KeysDistinctWhenNoTarget(properties: seq<string>)
    requires forall i, j | 0 <= i < j < |properties| :: properties[i] != properties[j]
    requires forall i | 0 <= i < |properties| :: properties[i] !in RenameTargets
    ensures KeysDistinct(properties)
  {
    var keys := Keys(properties);
    forall i, j | 0 <= i < j < |keys|
      ensures keys[i] != keys[j]
    {
      if keys[i] == keys[j] {
        SerialNameCollision(properties[i], properties[j]);
      }
    }
  }

  /** Within each record the key-name function is injective. */
  lemma RecordKeysDistinct()
    ensures KeysDistinct(UpdatePostBodyProperties)
    ensures KeysDistinct(TagDtoProperties)
    ensures KeysDistinct(PostDtoProperties)
    ensures KeysDistinct(AuthorDtoProperties)
  {
    KeysDistinctWhenNoTarget(UpdatePostBodyProperties);
    KeysDistinctWhenNoTarget(TagDtoProperties);
    KeysDistinctWhenNoTarget(PostDtoProperties);
    KeysDistinctWhenNoTarget(AuthorDtoProperties);
  }

  // ---------------------------------------------------------------------------------------
  // What a decoded value says about the object it came from

  /** The key of `property` is present and holds a string. */
  predicate HasString(obj: JsonObject, property: string) {
    SerialName(property) in obj && obj[SerialName(property)].JString?
  }

  /** The key of `property` is missing, `null`, or holds a string. */
  predicate MayHaveString(obj: JsonObject, property: string) {
    SerialName(property) !in obj || obj[SerialName(property)] == JNull || obj[SerialName(property)].JString?
  }

  /** `obj` carries the string `v` under the key of `property`. */
  predicate Holds(obj: JsonObject, property: string, v: string) {
    SerialName(property) in obj && obj[SerialName(property)] == JString(v)
  }

  /** `obj` carries `v` for a property that defaults to `null`: missing and `null` both mean absent. */
  predicate HoldsOptional(obj: JsonObject, property: string, v: Option<string>) {
    match v
    case None => SerialName(property) !in obj || obj[SerialName(property)] == JNull
    case Some(s) => Holds(obj, property, s)
  }

  /** `obj` carries `v` for a nullable property without a default: the key is present, possibly `null`. */
  predicate HoldsNullable(obj: JsonObject, property: string, v: Option<string>) {
    match v
    case None => SerialName(property) in obj && obj[SerialName(property)] == JNull
    case Some(s) => Holds(obj, property, s)
  }

  /** A list property that defaults to `null` is absent exactly when its key is missing or `null`. */
  predicate ListAbsent(obj: JsonObject, property: string) {
    SerialName(property) !in obj || obj[SerialName(property)] == JNull
  }

  // ---------------------------------------------------------------------------------------
  // Readers

  function ReadString(obj: JsonObject, property: string): Decoded<string> {
    var key := SerialName(property);
    if key !in obj then Err(MissingField(key))
    else if obj[key].JString? then Ok(obj[key].str)
    else Err(UnexpectedValue(key))
  }

  function ReadOptionalString(obj: JsonObject, property: string): Decoded<Option<string>> {
    var key := SerialName(property);
    if key !in obj || obj[key] == JNull then Ok(None)
    else if obj[key].JString? then Ok(Some(obj[key].str))
    else Err(UnexpectedValue(key))
  }

  function ReadNullableString(obj: JsonObject, property: string): Decoded<Option<string>> {
    var key := SerialName(property);
    if key !in obj then Err(MissingField(key))
    else if obj[key] == JNull then Ok(None)
    else if obj[key].JString? then Ok(Some(obj[key].str))
    else Err(UnexpectedValue(key))
  }

  /** Every item is a JSON object that `decode` accepts. */
  predicate AllDecode<T>(items: seq<Json>, decode: JsonObject -> Decoded<T>) {
    forall i | 0 <= i < |items| :: items[i].JObject? && decode(items[i].fields).Ok?
  }

  /** A list property that defaults to `null` is missing, `null`, or an array of objects that all decode. */
  predicate MayHaveList<T>(obj: JsonObject, property: string, decode: JsonObject -> Decoded<T>) {
    ListAbsent(obj, property)
    || (obj[SerialName(property)].JArray? && AllDecode(obj[SerialName(property)].items, decode))
  }

  /** Decodes every element of a JSON array as a record, stopping at the first failure. */
  function ReadObjects<T>(items: seq<Json>, key: string, decode: JsonObject -> Decoded<T>): (r: Decoded<seq<T>>)
    ensures r.Ok? <==> AllDecode(items, decode)
    ensures r.Ok? ==> |r.value| == |items|
    ensures r.Ok? ==> forall i | 0 <= i < |items| :: items[i].JObject? && decode(items[i].fields) == Ok(r.value[i])
  {
    if items == [] then Ok([])
    else if !items[0].JObject? then Err(UnexpectedValue(key))
    else
      var first :- decode(items[0].fields);
      var rest :- ReadObjects(items[1..], key, decode);
      Ok([first] + rest)
  }

  function ReadList<T>(obj: JsonObject, property: string, decode: JsonObject -> Decoded<T>): Decoded<seq<T>> {
    var key := SerialName(property);
    if key !in obj then Err(MissingField(key))
    else if obj[key].JArray? then ReadObjects(obj[key].items, key, decode)
    else Err(UnexpectedValue(key))
  }

  /**
   * `obj` carries `xs` for a list property that defaults to `null`: absent when the key is missing
   * or `null`, otherwise the decoding of the array's items, position by position.
   */
  ghost predicate HoldsList<T>(obj: JsonObject, property: string, xs: Option<seq<T>>, decode: JsonObject -> Decoded<T>) {
    match xs
    case None => ListAbsent(obj, property)
    case Some(v) =>
      var key := SerialName(property);
      && key in obj && obj[key].JArray? && |v| == |obj[key].items|
      && forall i | 0 <= i < |v| :: obj[key].items[i].JObject? && decode(obj[key].items[i].fields) == Ok(v[i])
  }

  function ReadOptionalList<T>(obj: JsonObject, property: string, decode: JsonObject -> Decoded<T>): (r: Decoded<Option<seq<T>>>)
    ensures r.Ok? ==> HoldsList(obj, property, r.value, decode)
  {
    var key := SerialName(property);
    if key !in obj || obj[key] == JNull then Ok(None)
    else if obj[key].JArray? then
      var items :- ReadObjects(obj[key].items, key, decode);
      Ok(Some(items))
    else Err(UnexpectedValue(key))
  }

  /** What an object holds for a property is what the readers read from it. */
  lemma ReadsOfHolds(obj: JsonObject, property: string, v: Option<string>)
    ensures v.Some? && Holds(obj, property, v.value) ==> ReadString(obj, property) == Ok(v.value)
    ensures HoldsOptional(obj, property, v) ==> ReadOptionalString(obj, property) == Ok(v)
  {
  }

  /** `a` and `b` agree on what the key of `property` holds, so every reader of it reads the same. */
  predicate ReadsAgree(a: JsonObject, b: JsonObject, property: string) {
    && ReadString(a, property) == ReadString(b, property)
    && ReadOptionalString(a, property) == ReadOptionalString(b, property)
    && (SerialName(property) in a <==> SerialName(property) in b)
    && (SerialName(property) in a ==> a[SerialName(property)] == b[SerialName(property)])
  }

  /** Writing another key leaves what the readers of `property` see unchanged. */
  lemma OtherKeyKeepsReads(obj: JsonObject, key: string, v: Json, property: string)
    requires SerialName(property) != key
    ensures ReadsAgree(obj, obj[key := v], property)
  {
  }

  // ---------------------------------------------------------------------------------------
  // Writers

  function PutString(property: string, v: string): JsonObject {
    map[SerialName(property) := JString(v)]
  }

  function PutOptional(property: string, v: Option<string>): JsonObject {
    match v
    case None => map[]
    case Some(s) => PutString(property, s)
  }

  function PutNullable(property: string, v: Option<string>): JsonObject {
    match v
    case None => map[SerialName(property) := JNull]
    case Some(s) => PutString(property, s)
  }

  function WriteObjects<T>(xs: seq<T>, encode: T -> JsonObject): (r: seq<Json>)
    ensures |r| == |xs|
    ensures forall i | 0 <= i < |xs| :: r[i] == JObject(encode(xs[i]))
  {
    seq(|xs|, i requires 0 <= i < |xs| => JObject(encode(xs[i])))
  }

  function PutList<T>(property: string, xs: seq<T>, encode: T -> JsonObject): JsonObject {
    map[SerialName(property) := JArray(WriteObjects(xs, encode))]
  }

  function PutOptionalList<T>(property: string, v: Option<seq<T>>, encode: T -> JsonObject): JsonObject {
    match v
    case None => map[]
    case Some(xs) => PutList(property, xs, encode)
  }

  // ---------------------------------------------------------------------------------------
  // Records

  function DecodeTagDto(obj: JsonObject): (r: Decoded<TagDto>)
    ensures r.Ok? <==> HasString(obj, "name") && MayHaveString(obj, "id") && MayHaveString(obj, "slug")
    ensures r.Ok? ==> Holds(obj, "name", r.value.name)
    ensures r.Ok? ==> HoldsOptional(obj, "id", r.value.id) && HoldsOptional(obj, "slug", r.value.slug)
  {
    var id :- ReadOptionalString(obj, "id");
    var name :- ReadString(obj, "name");
    var slug :- ReadOptionalString(obj, "slug");
    Ok(TagDto(id, name, slug))
  }

  /** Writes `name`, and `id` and `slug` only when present; never writes `null` or another key. */
  function EncodeTagDto(t: TagDto): (r: JsonObject)
    ensures r.Keys <= {"id", "name", "slug"}
    ensures forall k | k in r :: r[k] != JNull
    ensures Holds(r, "name", t.name)
    ensures HoldsOptional(r, "id", t.id) && HoldsOptional(r, "slug", t.slug)
  {
    PutOptional("id", t.id) + PutString("name", t.name) + PutOptional("slug", t.slug)
  }

  /** Encoding a tag and decoding it again gives the tag back. */
  lemma TagDtoRoundTrip(t: TagDto)
    ensures DecodeTagDto(EncodeTagDto(t)) == Ok(t)
  {
  }

  /** A tag needs only its name: every other property defaults to absent. */
  lemma TagDtoNeedsOnlyName(name: string)
    ensures DecodeTagDto(map["name" := JString(name)]) == Ok(TagDto(name := name))
    ensures DecodeTagDto(map["id" := JString(name), "slug" := JString(name)]).Err?
  {
  }

  function DecodeAuthorDto(obj: JsonObject): (r: Decoded<AuthorDto>)
    ensures r.Ok? <==> && HasString(obj, "id") && HasString(obj, "name") && HasString(obj, "slug")
                       && SerialName("profileImage") in obj && MayHaveString(obj, "profileImage")
    ensures r.Ok? ==> && Holds(obj, "id", r.value.id) && Holds(obj, "name", r.value.name)
                      && Holds(obj, "slug", r.value.slug)
                      && HoldsNullable(obj, "profileImage", r.value.profileImage)
  {
    var id :- ReadString(obj, "id");
    var name :- ReadString(obj, "name");
    var profileImage :- ReadNullableString(obj, "profileImage");
    var slug :- ReadString(obj, "slug");
    Ok(AuthorDto(id, name, profileImage, slug))
  }

  /** Writes the four properties; `profile_image`, which has no default, is written even when it is `null`. */
  function EncodeAuthorDto(a: AuthorDto): (r: JsonObject)
    ensures r.Keys == {"id", "name", "profile_image", "slug"}
    ensures Holds(r, "id", a.id) && Holds(r, "name", a.name) && Holds(r, "slug", a.slug)
    ensures HoldsNullable(r, "profileImage", a.profileImage)
  {
    PutString("id", a.id) + PutString("name", a.name) + PutNullable("profileImage", a.profileImage)
    + PutString("slug", a.slug)
  }

  /** Encoding an author and decoding it again gives the author back. */
  lemma AuthorDtoRoundTrip(a: AuthorDto)
    ensures DecodeAuthorDto(EncodeAuthorDto(a)) == Ok(a)
  {
  }

  /** Decoding a list of records undoes encoding it, element by element. */
  lemma {:induction false} ObjectsRoundTrip<T>(xs: seq<T>, key: string, encode: T -> JsonObject, decode: JsonObject -> Decoded<T>)
    requires forall i | 0 <= i < |xs| :: decode(encode(xs[i])) == Ok(xs[i])
    ensures ReadObjects(WriteObjects(xs, encode), key, decode) == Ok(xs)
  {
    if xs != [] {
      ObjectsRoundTrip(xs[1..], key, encode, decode);
      assert WriteObjects(xs, encode)[1..] == WriteObjects(xs[1..], encode);
      assert [xs[0]] + xs[1..] == xs;
    }
  }

  function DecodePostDto(obj: JsonObject): (r: Decoded<PostDto>)
    ensures r.Ok? <==> && HasString(obj, "id") && HasString(obj, "title") && HasString(obj, "status")
                       && HasString(obj, "url")
                       && MayHaveString(obj, "content") && MayHaveString(obj, "excerpt")
                       && MayHaveString(obj, "featureImage") && MayHaveString(obj, "publishedAt")
                       && MayHaveString(obj, "updatedAt") && MayHaveString(obj, "visibility")
                       && MayHaveString(obj, "slug") && MayHaveString(obj, "uuid")
                       && MayHaveString(obj, "lexical") && MayHaveString(obj, "mobiledoc")
                       && MayHaveList(obj, "authors", DecodeAuthorDto) && MayHaveList(obj, "tags", DecodeTagDto)
    ensures r.Ok? ==> && Holds(obj, "id", r.value.id) && Holds(obj, "title", r.value.title)
                      && Holds(obj, "status", r.value.status) && Holds(obj, "url", r.value.url)
    ensures r.Ok? ==> && HoldsOptional(obj, "content", r.value.content)
                      && HoldsOptional(obj, "excerpt", r.value.excerpt)
                      && HoldsOptional(obj, "featureImage", r.value.featureImage)
                      && HoldsOptional(obj, "publishedAt", r.value.publishedAt)
                      && HoldsOptional(obj, "updatedAt", r.value.updatedAt)
                      && HoldsOptional(obj, "visibility", r.value.visibility)
                      && HoldsOptional(obj, "slug", r.value.slug)
                      && HoldsOptional(obj, "uuid", r.value.uuid)
                      && HoldsOptional(obj, "lexical", r.value.lexical)
                      && HoldsOptional(obj, "mobiledoc", r.value.mobiledoc)
    ensures r.Ok? ==> && (r.value.authors.None? <==> ListAbsent(obj, "authors"))
                      && (r.value.tags.None? <==> ListAbsent(obj, "tags"))
    ensures r.Ok? ==> HoldsList(obj, "authors", r.value.authors, DecodeAuthorDto)
    ensures r.Ok? ==> HoldsList(obj, "tags", r.value.tags, DecodeTagDto)
  {
    var id :- ReadString(obj, "id");
    var title :- ReadString(obj, "title");
    var content :- ReadOptionalString(obj, "content");
    var excerpt :- ReadOptionalString(obj, "excerpt");
    var featureImage :- ReadOptionalString(obj, "featureImage");
    var status :- ReadString(obj, "status");
    var publishedAt :- ReadOptionalString(obj, "publishedAt");
    var updatedAt :- ReadOptionalString(obj, "updatedAt");
    var url :- ReadString(obj, "url");
    var visibility :- ReadOptionalString(obj, "visibility");
    var authors :- ReadOptionalList(obj, "authors", DecodeAuthorDto);
    var tags :- ReadOptionalList(obj, "tags", DecodeTagDto);
    var slug :- ReadOptionalString(obj, "slug");
    var uuid :- ReadOptionalString(obj, "uuid");
    var lexical :- ReadOptionalString(obj, "lexical");
    var mobiledoc :- ReadOptionalString(obj, "mobiledoc");
    Ok(PostDto(id, title, content, excerpt, featureImage, status, publishedAt, updatedAt, url, visibility,
               authors, tags, slug, uuid, lexical, mobiledoc))
  }

  /** The JSON value `p` writes under `key`, if any. */
  function PostDtoEntry(p: PostDto, key: string): Option<Json> {
    if key == "id" then Some(JString(p.id))
    else if key == "title" then Some(JString(p.title))
    else if key == "html" then OptionalEntry(p.content)
    else if key == "excerpt" then OptionalEntry(p.excerpt)
    else if key == "feature_image" then OptionalEntry(p.featureImage)
    else if key == "status" then Some(JString(p.status))
    else if key == "published_at" then OptionalEntry(p.publishedAt)
    else if key == "updated_at" then OptionalEntry(p.updatedAt)
    else if key == "url" then Some(JString(p.url))
    else if key == "visibility" then OptionalEntry(p.visibility)
    else if key == "authors" then OptionalListEntry(p.authors, EncodeAuthorDto)
    else if key == "tags" then OptionalListEntry(p.tags, EncodeTagDto)
    else if key == "slug" then OptionalEntry(p.slug)
    else if key == "uuid" then OptionalEntry(p.uuid)
    else if key == "lexical" then OptionalEntry(p.lexical)
    else if key == "mobiledoc" then OptionalEntry(p.mobiledoc)
    else None
  }

  const PostDtoKeys: set<string> :=
    {"id", "title", "html", "excerpt", "feature_image", "status", "published_at", "updated_at", "url",
     "visibility", "authors", "tags", "slug", "uuid", "lexical", "mobiledoc"}

  /** Writes the four required properties, and each optional one only when present; never writes `null`. */
  function EncodePostDto(p: PostDto): (r: JsonObject)
    ensures r.Keys <= PostDtoKeys
    ensures forall k | k in r :: r[k] != JNull
    ensures Holds(r, "id", p.id) && Holds(r, "title", p.title) && Holds(r, "status", p.status) && Holds(r, "url", p.url)
    ensures && HoldsOptional(r, "content", p.content) && HoldsOptional(r, "excerpt", p.excerpt)
            && HoldsOptional(r, "featureImage", p.featureImage) && HoldsOptional(r, "publishedAt", p.publishedAt)
            && HoldsOptional(r, "updatedAt", p.updatedAt) && HoldsOptional(r, "visibility", p.visibility)
            && HoldsOptional(r, "slug", p.slug) && HoldsOptional(r, "uuid", p.uuid)
            && HoldsOptional(r, "lexical", p.lexical) && HoldsOptional(r, "mobiledoc", p.mobiledoc)
    ensures ("authors" in r <==> p.authors.Some?) && ("tags" in r <==> p.tags.Some?)
    ensures p.authors.Some? ==> r["authors"] == JArray(WriteObjects(p.authors.value, EncodeAuthorDto))
    ensures p.tags.Some? ==> r["tags"] == JArray(WriteObjects(p.tags.value, EncodeTagDto))
  {
    PostDtoObjectRequired(p);
    PostDtoObjectOptional1(p);
    PostDtoObjectOptional2(p);
    PostDtoObjectLists(p);
    PostDtoObject(p)
  }

  /** The entries `p` writes, one per key with a value. */
  function PostDtoObject(p: PostDto): JsonObject {
    map key | key in PostDtoKeys && PostDtoEntry(p, key).Some? :: PostDtoEntry(p, key).value
  }

  lemma PostDtoObjectRequired(p: PostDto)
    ensures PostDtoObject(p).Keys <= PostDtoKeys
    ensures forall k | k in PostDtoObject(p) :: PostDtoObject(p)[k] != JNull
    ensures && Holds(PostDtoObject(p), "id", p.id) && Holds(PostDtoObject(p), "title", p.title)
            && Holds(PostDtoObject(p), "status", p.status) && Holds(PostDtoObject(p), "url", p.url)
  {
  }

  lemma PostDtoObjectOptional1(p: PostDto)
    ensures && HoldsOptional(PostDtoObject(p), "content", p.content)
            && HoldsOptional(PostDtoObject(p), "excerpt", p.excerpt)
            && HoldsOptional(PostDtoObject(p), "featureImage", p.featureImage)
            && HoldsOptional(PostDtoObject(p), "publishedAt", p.publishedAt)
            && HoldsOptional(PostDtoObject(p), "updatedAt", p.updatedAt)
  {
  }

  lemma PostDtoObjectOptional2(p: PostDto)
    ensures && HoldsOptional(PostDtoObject(p), "visibility", p.visibility)
            && HoldsOptional(PostDtoObject(p), "slug", p.slug)
            && HoldsOptional(PostDtoObject(p), "uuid", p.uuid)
            && HoldsOptional(PostDtoObject(p), "lexical", p.lexical)
            && HoldsOptional(PostDtoObject(p), "mobiledoc", p.mobiledoc)
  {
  }

  lemma PostDtoObjectLists(p: PostDto)
    ensures ("authors" in PostDtoObject(p) <==> p.authors.Some?) && ("tags" in PostDtoObject(p) <==> p.tags.Some?)
    ensures p.authors.Some? ==> PostDtoObject(p)["authors"] == JArray(WriteObjects(p.authors.value, EncodeAuthorDto))
    ensures p.tags.Some? ==> PostDtoObject(p)["tags"] == JArray(WriteObjects(p.tags.value, EncodeTagDto))
  {
  }

  function OptionalEntry(v: Option<string>): Option<Json> {
    match v
    case None => None
    case Some(s) => Some(JString(s))
  }

  function OptionalListEntry<T>(v: Option<seq<T>>, encode: T -> JsonObject): Option<Json> {
    match v
    case None => None
    case Some(xs) => Some(JArray(WriteObjects(xs, encode)))
  }

  lemma PostDtoRequiredRead(p: PostDto)
    ensures ReadString(EncodePostDto(p), "id") == Ok(p.id)
    ensures ReadString(EncodePostDto(p), "title") == Ok(p.title)
    ensures ReadString(EncodePostDto(p), "status") == Ok(p.status)
    ensures ReadString(EncodePostDto(p), "url") == Ok(p.url)
  {
    var e := EncodePostDto(p);
    ReadsOfHolds(e, "id", Some(p.id));
    ReadsOfHolds(e, "title", Some(p.title));
    ReadsOfHolds(e, "status", Some(p.status));
    ReadsOfHolds(e, "url", Some(p.url));
  }

  lemma PostDtoOptionalRead1(p: PostDto)
    ensures ReadOptionalString(EncodePostDto(p), "content") == Ok(p.content)
    ensures ReadOptionalString(EncodePostDto(p), "excerpt") == Ok(p.excerpt)
    ensures ReadOptionalString(EncodePostDto(p), "featureImage") == Ok(p.featureImage)
  {
    var e := EncodePostDto(p);
    ReadsOfHolds(e, "content", p.content);
    ReadsOfHolds(e, "excerpt", p.excerpt);
    ReadsOfHolds(e, "featureImage", p.featureImage);
  }

  lemma PostDtoOptionalRead2(p: PostDto)
    ensures ReadOptionalString(EncodePostDto(p), "publishedAt") == Ok(p.publishedAt)
    ensures ReadOptionalString(EncodePostDto(p), "updatedAt") == Ok(p.updatedAt)
    ensures ReadOptionalString(EncodePostDto(p), "visibility") == Ok(p.visibility)
  {
    var e := EncodePostDto(p);
    ReadsOfHolds(e, "publishedAt", p.publishedAt);
    ReadsOfHolds(e, "updatedAt", p.updatedAt);
    ReadsOfHolds(e, "visibility", p.visibility);
  }

  lemma PostDtoOptionalRead3(p: PostDto)
    ensures ReadOptionalString(EncodePostDto(p), "slug") == Ok(p.slug)
    ensures ReadOptionalString(EncodePostDto(p), "uuid") == Ok(p.uuid)
  {
    var e := EncodePostDto(p);
    ReadsOfHolds(e, "slug", p.slug);
    ReadsOfHolds(e, "uuid", p.uuid);
  }

  lemma PostDtoOptionalRead4(p: PostDto)
    ensures ReadOptionalString(EncodePostDto(p), "lexical") == Ok(p.lexical)
    ensures ReadOptionalString(EncodePostDto(p), "mobiledoc") == Ok(p.mobiledoc)
  {
    var e := EncodePostDto(p);
    ReadsOfHolds(e, "lexical", p.lexical);
    ReadsOfHolds(e, "mobiledoc", p.mobiledoc);
  }

  lemma PostDtoListsRead(p: PostDto)
    ensures ReadOptionalList(EncodePostDto(p), "authors", DecodeAuthorDto) == Ok(p.authors)
    ensures ReadOptionalList(EncodePostDto(p), "tags", DecodeTagDto) == Ok(p.tags)
  {
    if p.authors.Some? {
      var xs := p.authors.value;
      forall i | 0 <= i < |xs| ensures DecodeAuthorDto(EncodeAuthorDto(xs[i])) == Ok(xs[i]) {
        AuthorDtoRoundTrip(xs[i]);
      }
      ObjectsRoundTrip(xs, "authors", EncodeAuthorDto, DecodeAuthorDto);
    }
    if p.tags.Some? {
      var xs := p.tags.value;
      forall i | 0 <= i < |xs| ensures DecodeTagDto(EncodeTagDto(xs[i])) == Ok(xs[i]) {
        TagDtoRoundTrip(xs[i]);
      }
      ObjectsRoundTrip(xs, "tags", EncodeTagDto, DecodeTagDto);
    }
  }

  /** Encoding a post and decoding it again gives the post back, its author and tag lists included. */
  lemma PostDtoRoundTrip(p: PostDto)
    ensures DecodePostDto(EncodePostDto(p)) == Ok(p)
  {
    PostDtoRequiredRead(p);
    PostDtoOptionalRead1(p);
    PostDtoOptionalRead2(p);
    PostDtoOptionalRead3(p);
    PostDtoOptionalRead4(p);
    PostDtoListsRead(p);
  }

  /** A post needs only `id`, `title`, `status` and `url`: every other property defaults to absent. */
  lemma PostDtoNeedsOnly(id: string, title: string, status: string, url: string)
    ensures DecodePostDto(map["id" := JString(id), "title" := JString(title), "status" := JString(status),
                              "url" := JString(url)])
            == Ok(PostDto(id := id, title := title, status := status, url := url))
  {
    ServerPostDecodes(map["id" := JString(id), "title" := JString(title), "status" := JString(status),
                          "url" := JString(url)], id, title, status, url);
  }

  /** A key a post does not declare (the server's `created_at`, say) changes nothing about decoding. */
  lemma PostDtoIgnoresUndeclaredKeys(obj: JsonObject, key: string, v: Json)
    requires key !in PostDtoKeys
    ensures DecodePostDto(obj[key := v]) == DecodePostDto(obj)
  {
    var o := obj[key := v];
    OtherKeyKeepsReads(obj, key, v, "id");
    OtherKeyKeepsReads(obj, key, v, "title");
    OtherKeyKeepsReads(obj, key, v, "content");
    OtherKeyKeepsReads(obj, key, v, "excerpt");
    OtherKeyKeepsReads(obj, key, v, "featureImage");
    OtherKeyKeepsReads(obj, key, v, "status");
    OtherKeyKeepsReads(obj, key, v, "publishedAt");
    OtherKeyKeepsReads(obj, key, v, "updatedAt");
    OtherKeyKeepsReads(obj, key, v, "url");
    OtherKeyKeepsReads(obj, key, v, "visibility");
    OtherKeyKeepsReads(obj, key, v, "authors");
    OtherKeyKeepsReads(obj, key, v, "tags");
    OtherKeyKeepsReads(obj, key, v, "slug");
    OtherKeyKeepsReads(obj, key, v, "uuid");
    OtherKeyKeepsReads(obj, key, v, "lexical");
    OtherKeyKeepsReads(obj, key, v, "mobiledoc");
    assert ReadOptionalList(o, "authors", DecodeAuthorDto) == ReadOptionalList(obj, "authors", DecodeAuthorDto);
    assert ReadOptionalList(o, "tags", DecodeTagDto) == ReadOptionalList(obj, "tags", DecodeTagDto);
  }

  /**
   * A post as the server sends it decodes: when every key other than the four required ones is
   * `null` or one `PostDto` does not declare (`created_at`, say), the post carries the required
   * values and nothing else.
   */
  lemma ServerPostDecodes(obj: JsonObject, id: string, title: string, status: string, url: string)
    requires Holds(obj, "id", id) && Holds(obj, "title", title) && Holds(obj, "status", status) && Holds(obj, "url", url)
    requires forall k | k in obj && k !in {"id", "title", "status", "url"} :: obj[k] == JNull || k !in PostDtoKeys
    ensures DecodePostDto(obj) == Ok(PostDto(id := id, title := title, status := status, url := url))
  {
    assert ReadOptionalString(obj, "content") == Ok(None) by { assert SerialName("content") in PostDtoKeys; }
    assert ReadOptionalString(obj, "excerpt") == Ok(None) by { assert SerialName("excerpt") in PostDtoKeys; }
    assert ReadOptionalString(obj, "featureImage") == Ok(None) by { assert SerialName("featureImage") in PostDtoKeys; }
    assert ReadOptionalString(obj, "publishedAt") == Ok(None) by { assert SerialName("publishedAt") in PostDtoKeys; }
    assert ReadOptionalString(obj, "updatedAt") == Ok(None) by { assert SerialName("updatedAt") in PostDtoKeys; }
    assert ReadOptionalString(obj, "visibility") == Ok(None) by { assert SerialName("visibility") in PostDtoKeys; }
    assert ReadOptionalString(obj, "slug") == Ok(None) by { assert SerialName("slug") in PostDtoKeys; }
    assert ReadOptionalString(obj, "uuid") == Ok(None) by { assert SerialName("uuid") in PostDtoKeys; }
    assert ReadOptionalString(obj, "lexical") == Ok(None) by { assert SerialName("lexical") in PostDtoKeys; }
    assert ReadOptionalString(obj, "mobiledoc") == Ok(None) by { assert SerialName("mobiledoc") in PostDtoKeys; }
    assert ReadOptionalList(obj, "authors", DecodeAuthorDto) == Ok(None) by { assert "authors" in PostDtoKeys; }
    assert ReadOptionalList(obj, "tags", DecodeTagDto) == Ok(None) by { assert "tags" in PostDtoKeys; }
  }

  function DecodeUpdatePostBody(obj: JsonObject): (r: Decoded<UpdatePostBody>)
    ensures r.Ok? <==> && HasString(obj, "id") && HasString(obj, "title") && HasString(obj, "content")
                       && MayHaveString(obj, "excerpt") && MayHaveString(obj, "status")
                       && MayHaveString(obj, "authorId") && MayHaveString(obj, "featureImage")
                       && MayHaveString(obj, "updatedAt") && MayHaveString(obj, "visibility")
                       && MayHaveString(obj, "publishedAt") && MayHaveString(obj, "url")
                       && MayHaveString(obj, "slug") && MayHaveList(obj, "tags", DecodeTagDto)
    ensures r.Ok? ==> && Holds(obj, "id", r.value.id) && Holds(obj, "title", r.value.title)
                      && Holds(obj, "content", r.value.content)
    ensures r.Ok? ==> && HoldsOptional(obj, "excerpt", r.value.excerpt)
                      && HoldsOptional(obj, "status", r.value.status)
                      && HoldsOptional(obj, "authorId", r.value.authorId)
                      && HoldsOptional(obj, "featureImage", r.value.featureImage)
                      && HoldsOptional(obj, "updatedAt", r.value.updatedAt)
                      && HoldsOptional(obj, "visibility", r.value.visibility)
                      && HoldsOptional(obj, "publishedAt", r.value.publishedAt)
                      && HoldsOptional(obj, "url", r.value.url)
                      && HoldsOptional(obj, "slug", r.value.slug)
    ensures r.Ok? ==> (r.value.tags.None? <==> ListAbsent(obj, "tags"))
    ensures r.Ok? ==> HoldsList(obj, "tags", r.value.tags, DecodeTagDto)
  {
    var id :- ReadString(obj, "id");
    var title :- ReadString(obj, "title");
    var content :- ReadString(obj, "content");
    var excerpt :- ReadOptionalString(obj, "excerpt");
    var tags :- ReadOptionalList(obj, "tags", DecodeTagDto);
    var status :- ReadOptionalString(obj, "status");
    var authorId :- ReadOptionalString(obj, "authorId");
    var featureImage :- ReadOptionalString(obj, "featureImage");
    var updatedAt :- ReadOptionalString(obj, "updatedAt");
    var visibility :- ReadOptionalString(obj, "visibility");
    var publishedAt :- ReadOptionalString(obj, "publishedAt");
    var url :- ReadOptionalString(obj, "url");
    var slug :- ReadOptionalString(obj, "slug");
    Ok(UpdatePostBody(id, title, content, excerpt, tags, status, authorId, featureImage, updatedAt, visibility,
                      publishedAt, url, slug))
  }

  const UpdatePostBodyKeys: set<string> :=
    {"id", "title", "html", "excerpt", "tags", "status", "author_id", "feature_image", "updated_at",
     "visibility", "published_at", "url", "slug"}

  /** The JSON value `b` writes under `key`, if any. */
  function UpdatePostBodyEntry(b: UpdatePostBody, key: string): Option<Json> {
    if key == "id" then Some(JString(b.id))
    else if key == "title" then Some(JString(b.title))
    else if key == "html" then Some(JString(b.content))
    else if key == "excerpt" then OptionalEntry(b.excerpt)
    else if key == "tags" then OptionalListEntry(b.tags, EncodeTagDto)
    else if key == "status" then OptionalEntry(b.status)
    else if key == "author_id" then OptionalEntry(b.authorId)
    else if key == "feature_image" then OptionalEntry(b.featureImage)
    else if key == "updated_at" then OptionalEntry(b.updatedAt)
    else if key == "visibility" then OptionalEntry(b.visibility)
    else if key == "published_at" then OptionalEntry(b.publishedAt)
    else if key == "url" then OptionalEntry(b.url)
    else if key == "slug" then OptionalEntry(b.slug)
    else None
  }

  /** Writes `id`, `title` and `html`, and each optional property only when present; never writes `null`. */
  function EncodeUpdatePostBody(b: UpdatePostBody): (r: JsonObject)
    ensures r.Keys <= UpdatePostBodyKeys
    ensures forall k | k in r :: r[k] != JNull
    ensures Holds(r, "id", b.id) && Holds(r, "title", b.title) && Holds(r, "content", b.content)
    ensures && HoldsOptional(r, "excerpt", b.excerpt) && HoldsOptional(r, "status", b.status)
            && HoldsOptional(r, "authorId", b.authorId) && HoldsOptional(r, "featureImage", b.featureImage)
            && HoldsOptional(r, "updatedAt", b.updatedAt) && HoldsOptional(r, "visibility", b.visibility)
            && HoldsOptional(r, "publishedAt", b.publishedAt) && HoldsOptional(r, "url", b.url)
            && HoldsOptional(r, "slug", b.slug)
    ensures "tags" in r <==> b.tags.Some?
    ensures b.tags.Some? ==> r["tags"] == JArray(WriteObjects(b.tags.value, EncodeTagDto))
  {
    UpdatePostBodyObjectRequired(b);
    UpdatePostBodyObjectOptional1(b);
    UpdatePostBodyObjectOptional2(b);
    UpdatePostBodyObject(b)
  }

  /** The entries `b` writes, one per key with a value. */
  function UpdatePostBodyObject(b: UpdatePostBody): JsonObject {
    map key | key in UpdatePostBodyKeys && UpdatePostBodyEntry(b, key).Some? :: UpdatePostBodyEntry(b, key).value
  }

  lemma UpdatePostBodyObjectRequired(b: UpdatePostBody)
    ensures UpdatePostBodyObject(b).Keys <= UpdatePostBodyKeys
    ensures forall k | k in UpdatePostBodyObject(b) :: UpdatePostBodyObject(b)[k] != JNull
    ensures && Holds(UpdatePostBodyObject(b), "id", b.id) && Holds(UpdatePostBodyObject(b), "title", b.title)
            && Holds(UpdatePostBodyObject(b), "content", b.content)
    ensures "tags" in UpdatePostBodyObject(b) <==> b.tags.Some?
    ensures b.tags.Some? ==> UpdatePostBodyObject(b)["tags"] == JArray(WriteObjects(b.tags.value, EncodeTagDto))
  {
  }

  lemma UpdatePostBodyObjectOptional1(b: UpdatePostBody)
    ensures && HoldsOptional(UpdatePostBodyObject(b), "excerpt", b.excerpt)
            && HoldsOptional(UpdatePostBodyObject(b), "status", b.status)
            && HoldsOptional(UpdatePostBodyObject(b), "authorId", b.authorId)
            && HoldsOptional(UpdatePostBodyObject(b), "featureImage", b.featureImage)
            && HoldsOptional(UpdatePostBodyObject(b), "updatedAt", b.updatedAt)
  {
  }

  lemma UpdatePostBodyObjectOptional2(b: UpdatePostBody)
    ensures && HoldsOptional(UpdatePostBodyObject(b), "visibility", b.visibility)
            && HoldsOptional(UpdatePostBodyObject(b), "publishedAt", b.publishedAt)
            && HoldsOptional(UpdatePostBodyObject(b), "url", b.url)
            && HoldsOptional(UpdatePostBodyObject(b), "slug", b.slug)
  {
  }

  lemma UpdatePostBodyRequiredRead(b: UpdatePostBody)
    ensures ReadString(EncodeUpdatePostBody(b), "id") == Ok(b.id)
    ensures ReadString(EncodeUpdatePostBody(b), "title") == Ok(b.title)
    ensures ReadString(EncodeUpdatePostBody(b), "content") == Ok(b.content)
  {
    var e := EncodeUpdatePostBody(b);
    ReadsOfHolds(e, "id", Some(b.id));
    ReadsOfHolds(e, "title", Some(b.title));
    ReadsOfHolds(e, "content", Some(b.content));
  }

  lemma UpdatePostBodyOptionalRead1(b: UpdatePostBody)
    ensures ReadOptionalString(EncodeUpdatePostBody(b), "excerpt") == Ok(b.excerpt)
    ensures ReadOptionalString(EncodeUpdatePostBody(b), "status") == Ok(b.status)
    ensures ReadOptionalString(EncodeUpdatePostBody(b), "authorId") == Ok(b.authorId)
    ensures ReadOptionalString(EncodeUpdatePostBody(b), "featureImage") == Ok(b.featureImage)
  {
    var e := EncodeUpdatePostBody(b);
    ReadsOfHolds(e, "excerpt", b.excerpt);
    ReadsOfHolds(e, "status", b.status);
    ReadsOfHolds(e, "authorId", b.authorId);
    ReadsOfHolds(e, "featureImage", b.featureImage);
  }

  lemma UpdatePostBodyOptionalRead2(b: UpdatePostBody)
    ensures ReadOptionalString(EncodeUpdatePostBody(b), "updatedAt") == Ok(b.updatedAt)
    ensures ReadOptionalString(EncodeUpdatePostBody(b), "visibility") == Ok(b.visibility)
    ensures ReadOptionalString(EncodeUpdatePostBody(b), "publishedAt") == Ok(b.publishedAt)
  {
    var e := EncodeUpdatePostBody(b);
    ReadsOfHolds(e, "updatedAt", b.updatedAt);
    ReadsOfHolds(e, "visibility", b.visibility);
    ReadsOfHolds(e, "publishedAt", b.publishedAt);
  }

  lemma UpdatePostBodyOptionalRead3(b: UpdatePostBody)
    ensures ReadOptionalString(EncodeUpdatePostBody(b), "url") == Ok(b.url)
    ensures ReadOptionalString(EncodeUpdatePostBody(b), "slug") == Ok(b.slug)
  {
    var e := EncodeUpdatePostBody(b);
    ReadsOfHolds(e, "url", b.url);
    ReadsOfHolds(e, "slug", b.slug);
  }

  /** Encoding an update body and decoding it again gives the body back, its tag list included. */
  lemma UpdatePostBodyRoundTrip(b: UpdatePostBody)
    ensures DecodeUpdatePostBody(EncodeUpdatePostBody(b)) == Ok(b)
  {
    UpdatePostBodyRequiredRead(b);
    UpdatePostBodyOptionalRead1(b);
    UpdatePostBodyOptionalRead2(b);
    UpdatePostBodyOptionalRead3(b);
    if b.tags.Some? {
      var xs := b.tags.value;
      forall i | 0 <= i < |xs| ensures DecodeTagDto(EncodeTagDto(xs[i])) == Ok(xs[i]) {
        TagDtoRoundTrip(xs[i]);
      }
      ObjectsRoundTrip(xs, "tags", EncodeTagDto, DecodeTagDto);
    }
    assert ReadOptionalList(EncodeUpdatePostBody(b), "tags", DecodeTagDto) == Ok(b.tags);
  }

  /** An update body needs only `id`, `title` and `content` (sent as `html`); the other ten default to absent. */
  lemma UpdatePostBodyNeedsOnly(id: string, title: string, content: string)
    ensures DecodeUpdatePostBody(map["id" := JString(id), "title" := JString(title), "html" := JString(content)])
            == Ok(UpdatePostBody(id := id, title := title, content := content))
    ensures DecodeUpdatePostBody(map["id" := JString(id), "title" := JString(title),
                                     "content" := JString(content)]).Err?
  {
  }

  /** A key an update body does not declare changes nothing about decoding. */
  lemma UpdatePostBodyIgnoresUndeclaredKeys(obj: JsonObject, key: string, v: Json)
    requires key !in UpdatePostBodyKeys
    ensures DecodeUpdatePostBody(obj[key := v]) == DecodeUpdatePostBody(obj)
  {
    var o := obj[key := v];
    OtherKeyKeepsReads(obj, key, v, "id");
    OtherKeyKeepsReads(obj, key, v, "title");
    OtherKeyKeepsReads(obj, key, v, "content");
    OtherKeyKeepsReads(obj, key, v, "excerpt");
    OtherKeyKeepsReads(obj, key, v, "tags");
    OtherKeyKeepsReads(obj, key, v, "status");
    OtherKeyKeepsReads(obj, key, v, "authorId");
    OtherKeyKeepsReads(obj, key, v, "featureImage");
    OtherKeyKeepsReads(obj, key, v, "updatedAt");
    OtherKeyKeepsReads(obj, key, v, "visibility");
    OtherKeyKeepsReads(obj, key, v, "publishedAt");
    OtherKeyKeepsReads(obj, key, v, "url");
    OtherKeyKeepsReads(obj, key, v, "slug");
    assert ReadOptionalList(o, "tags", DecodeTagDto) == ReadOptionalList(obj, "tags", DecodeTagDto);
  }

  // ---------------------------------------------------------------------------------------
  // Envelopes: each wraps a required list of posts

  function DecodeUpdatePostRequest(obj: JsonObject): (r: Decoded<UpdatePostRequest>)
    ensures r.Ok? <==> "posts" in obj && obj["posts"].JArray? && AllDecode(obj["posts"].items, DecodeUpdatePostBody)
    ensures SerialName("posts") !in obj ==> r.Err?
    ensures r.Ok? ==> && obj["posts"].JArray?
                      && |r.value.posts| == |obj["posts"].items|
                      && forall i | 0 <= i < |r.value.posts| ::
                           obj["posts"].items[i].JObject?
                           && DecodeUpdatePostBody(obj["posts"].items[i].fields) == Ok(r.value.posts[i])
  {
    var posts :- ReadList(obj, "posts", DecodeUpdatePostBody);
    Ok(UpdatePostRequest(posts))
  }

  /** The request is one `posts` key holding the encoded bodies, in order. */
  function EncodeUpdatePostRequest(q: UpdatePostRequest): (r: JsonObject)
    ensures r.Keys == {"posts"}
    ensures r["posts"].JArray? && |r["posts"].items| == |q.posts|
    ensures forall i | 0 <= i < |q.posts| :: r["posts"].items[i] == JObject(EncodeUpdatePostBody(q.posts[i]))
  {
    PutList("posts", q.posts, EncodeUpdatePostBody)
  }

  lemma UpdatePostRequestRoundTrip(q: UpdatePostRequest)
    ensures DecodeUpdatePostRequest(EncodeUpdatePostRequest(q)) == Ok(q)
  {
    forall i | 0 <= i < |q.posts| ensures DecodeUpdatePostBody(EncodeUpdatePostBody(q.posts[i])) == Ok(q.posts[i]) {
      UpdatePostBodyRoundTrip(q.posts[i]);
    }
    ObjectsRoundTrip(q.posts, "posts", EncodeUpdatePostBody, DecodeUpdatePostBody);
  }

  function DecodeUpdatePostResponse(obj: JsonObject): (r: Decoded<UpdatePostResponse>)
    ensures r.Ok? <==> "posts" in obj && obj["posts"].JArray? && AllDecode(obj["posts"].items, DecodePostDto)
    ensures SerialName("posts") !in obj ==> r.Err?
    ensures r.Ok? ==> && obj["posts"].JArray?
                      && |r.value.posts| == |obj["posts"].items|
                      && forall i | 0 <= i < |r.value.posts| ::
                           obj["posts"].items[i].JObject?
                           && DecodePostDto(obj["posts"].items[i].fields) == Ok(r.value.posts[i])
  {
    var posts :- ReadList(obj, "posts", DecodePostDto);
    Ok(UpdatePostResponse(posts))
  }

  /** The response is one `posts` key holding the encoded posts, in order. */
  function EncodeUpdatePostResponse(q: UpdatePostResponse): (r: JsonObject)
    ensures r.Keys == {"posts"}
    ensures r["posts"].JArray? && |r["posts"].items| == |q.posts|
    ensures forall i | 0 <= i < |q.posts| :: r["posts"].items[i] == JObject(EncodePostDto(q.posts[i]))
  {
    PutList("posts", q.posts, EncodePostDto)
  }

  lemma UpdatePostResponseRoundTrip(q: UpdatePostResponse)
    ensures DecodeUpdatePostResponse(EncodeUpdatePostResponse(q)) == Ok(q)
  {
    forall i | 0 <= i < |q.posts| ensures DecodePostDto(EncodePostDto(q.posts[i])) == Ok(q.posts[i]) {
      PostDtoRoundTrip(q.posts[i]);
    }
    ObjectsRoundTrip(q.posts, "posts", EncodePostDto, DecodePostDto);
  }
}
