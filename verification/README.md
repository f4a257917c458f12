# GhostlyCMS post editing and caching core, in Dafny

This project models the part of GhostlyCMS, a Kotlin Multiplatform client for the Ghost blogging
platform, that edits one post and keeps a local copy of the posts in step with the server:

- **Wire records** (`UpdatePostModels.kt`): the request and response envelopes, `UpdatePostBody`,
  `PostDto`, `TagDto` and `AuthorDto`. It covers which properties a JSON object must carry and which
  default to absent. It also covers the JSON key each property travels under (`content` is sent as
  `html`, `featureImage` as `feature_image`, and so on). Module `Wire` gives each record a decoder
  and an encoder over an abstract JSON value, states exactly which objects decode, and proves that
  decoding undoes encoding.
- **Mappers** (`Posts.kt`): conversions between the wire records, the persisted rows
  (`PostEntity`, `AuthorEntity`, `TagEntity`, `PostWithAuthorsAndTags`) and the domain model
  (`Post`, `Author`, `Tag`). Module `Mappers` covers the defaults filled in for absent values, the
  element-wise list maps, and the round trip between a post and its row.
- **Edit session** (`EditPostViewModel.kt`): the working copy (`None` until a post is loaded), the
  title, excerpt and content edits, tag addition and removal, and the decision `savePost` takes
  from the answers of the remote write and the remote refresh. Module `EditPost` models it. Module
  `Text` models the Kotlin string functions it relies on (`trim`, `lowercase`, `replace`,
  ignore-case `equals`, decimal rendering).
- **Local store** (`PostDao.kt`): the five Room DAOs over an abstract state. Module `Dao` models it:
  - `posts`, `authors` and `tags` are maps keyed by id;
  - the two cross-reference tables are sets of id pairs;
  - each operation means what its annotation or SQL text says.

  Module `Table` holds the generic table semantics: REPLACE-upsert, update-only, bulk forms as left
  folds, and result-set enumeration.

Modules `Models` and `Entities` hold the domain classes and the Room entities. Their Kotlin sources
are not part of this model, so their fields and nullability are the ones `Posts.kt` reads and
writes. `PostEntity` takes its columns in the positional order used by `Post.toPostEntity`. The
cross-reference rows are `(postId, authorId)` and `(postId, tagId)`.

Three behaviours of the code are worth stating plainly, because the model follows them:

- `PostDto.toPost` copies the nullable `excerpt` as is (Posts.kt:97), so an absent excerpt stays
  absent rather than becoming `""`.
- `PostDao.clearAll` deletes only from `posts` (PostDao.kt:35-36). No cascade to the
  cross-reference rows is visible in the code.
- `savePost` only hands the refreshed post, or the write's post when the refresh fails, to
  `postDataSource.updatePost` (EditPostViewModel.kt:131,143). Which tag rows and cross-references that call rewrites is
  decided in its body, which is not part of this model.

## Model

| member | source | states |
|---|---|---|
| Wire.SerialNames | shared/src/commonMain/kotlin/com/ghostly/posts/models/UpdatePostModels.kt:15-74 | The six `@SerialName` renames (`content`→`html`, `featureImage`→`feature_image`, `updatedAt`→`updated_at`, `publishedAt`→`published_at`, `authorId`→`author_id`, `profileImage`→`profile_image`); every other property of the four records travels under its own name |
| Wire.SerialNameCollision | shared/src/commonMain/kotlin/com/ghostly/posts/models/UpdatePostModels.kt:15-28 | Two different property names share a JSON key only when one of them is spelled like a rename target |
| Wire.KeysDistinctWhenNoTarget | shared/src/commonMain/kotlin/com/ghostly/posts/models/UpdatePostModels.kt:12-31 | Distinct property names, none spelled like a rename target, get pairwise distinct JSON keys |
| Wire.RecordKeysDistinct | shared/src/commonMain/kotlin/com/ghostly/posts/models/UpdatePostModels.kt:12-76 | Within each of `UpdatePostBody`, `TagDto`, `PostDto` and `AuthorDto` no two properties share a JSON key |
| Wire.DecodeTagDto | shared/src/commonMain/kotlin/com/ghostly/posts/models/UpdatePostModels.kt:33-38 | Decoding succeeds exactly when `name` holds a string and `id`/`slug` are missing, null or strings; the decoded values are the ones in the object, with missing or null meaning absent |
| Wire.EncodeTagDto | shared/src/commonMain/kotlin/com/ghostly/posts/models/UpdatePostModels.kt:33-38 | Writes `name`, and `id` and `slug` only when present; writes no `null` and no other key |
| Wire.TagDtoRoundTrip | shared/src/commonMain/kotlin/com/ghostly/posts/models/UpdatePostModels.kt:33-38 | Decoding an encoded tag gives the tag back |
| Wire.TagDtoNeedsOnlyName | shared/src/commonMain/kotlin/com/ghostly/posts/models/UpdatePostModels.kt:34-38 | An object with only `name` decodes to a tag whose `id` and `slug` are absent; an object without `name` is rejected |
| Wire.DecodeAuthorDto | shared/src/commonMain/kotlin/com/ghostly/posts/models/UpdatePostModels.kt:69-76 | Decoding succeeds exactly when `id`, `name`, `slug` hold strings and the `profile_image` key is present (null allowed, since it has no default); the values are the object's |
| Wire.EncodeAuthorDto | shared/src/commonMain/kotlin/com/ghostly/posts/models/UpdatePostModels.kt:69-76 | Writes exactly the four keys `id`, `name`, `profile_image`, `slug`; `profile_image` has no default, so an absent image is written as `null` |
| Wire.AuthorDtoRoundTrip | shared/src/commonMain/kotlin/com/ghostly/posts/models/UpdatePostModels.kt:69-76 | Decoding an encoded author gives the author back |
| Wire.ReadObjects | shared/src/commonMain/kotlin/com/ghostly/posts/models/UpdatePostModels.kt:61-62 | A list decodes exactly when every element is an object that decodes; the decoded list has one element per JSON element, each the decoding of the element in the same position |
| Wire.ObjectsRoundTrip | shared/src/commonMain/kotlin/com/ghostly/posts/models/UpdatePostModels.kt:61-62 | When every element round-trips, the whole list round-trips |
| Wire.DecodePostDto | shared/src/commonMain/kotlin/com/ghostly/posts/models/UpdatePostModels.kt:45-67 | Decoding succeeds exactly when `id`, `title`, `status`, `url` hold strings, every optional string key is missing, null or a string, and `authors`/`tags` are each missing, null or an array of objects that decode; on success the required values are the object's, each optional value is the object's or absent when missing or null, and each list is absent exactly when its key is missing or null; a present `authors` or `tags` list holds, position by position, the decoding of the array's items |
| Wire.EncodePostDto | shared/src/commonMain/kotlin/com/ghostly/posts/models/UpdatePostModels.kt:45-67 | Writes the four required properties under their keys, each optional property only when present, and no `null` and no undeclared key |
| Wire.PostDtoRoundTrip | shared/src/commonMain/kotlin/com/ghostly/posts/models/UpdatePostModels.kt:45-67 | Decoding an encoded post gives it back, author and tag lists included |
| Wire.PostDtoNeedsOnly | shared/src/commonMain/kotlin/com/ghostly/posts/models/UpdatePostModels.kt:46-67 | An object with only `id`, `title`, `status` and `url` decodes to a post whose twelve other properties are absent |
| Wire.PostDtoIgnoresUndeclaredKeys | shared/src/commonMain/kotlin/com/ghostly/posts/models/UpdatePostModels.kt:45-67 | Adding or changing a key `PostDto` does not declare (such as the server's `created_at`) never changes the decoding result |
| Wire.ServerPostDecodes | shared/src/commonMain/kotlin/com/ghostly/posts/models/UpdatePostModels.kt:45-67 | An object with the four required strings, whose every other key is `null` or one `PostDto` does not declare (such as `created_at`), decodes to a post with those four values and every other property absent |
| Wire.DecodeUpdatePostBody | shared/src/commonMain/kotlin/com/ghostly/posts/models/UpdatePostModels.kt:11-31 | Decoding succeeds exactly when `id`, `title` and `html` hold strings, every optional string key is missing, null or a string, and `tags` is missing, null or an array of tag objects that decode; on success the values are the object's, with the ten optional ones absent when missing or null; a present `tags` list holds, position by position, the decoding of the array's items |
| Wire.EncodeUpdatePostBody | shared/src/commonMain/kotlin/com/ghostly/posts/models/UpdatePostModels.kt:11-31 | The body the app sends: `id`, `title` and the content under `html`, each optional property under its serial name only when present, and no `null` and no undeclared key |
| Wire.UpdatePostBodyRoundTrip | shared/src/commonMain/kotlin/com/ghostly/posts/models/UpdatePostModels.kt:11-31 | Decoding an encoded update body gives it back, tag list included |
| Wire.UpdatePostBodyNeedsOnly | shared/src/commonMain/kotlin/com/ghostly/posts/models/UpdatePostModels.kt:12-31 | `id`, `title` and `html` suffice and leave the other ten absent; the content under the key `content` instead of `html` is rejected |
| Wire.UpdatePostBodyIgnoresUndeclaredKeys | shared/src/commonMain/kotlin/com/ghostly/posts/models/UpdatePostModels.kt:11-31 | Adding or changing a key `UpdatePostBody` does not declare never changes the decoding result |
| Wire.DecodeUpdatePostRequest | shared/src/commonMain/kotlin/com/ghostly/posts/models/UpdatePostModels.kt:6-9 | Decoding succeeds exactly when `posts` is an array whose items are all update-body objects that decode; each decoded body is the decoding of the element in the same position |
| Wire.EncodeUpdatePostRequest | shared/src/commonMain/kotlin/com/ghostly/posts/models/UpdatePostModels.kt:6-9 | The request is the single key `posts` holding the encoded bodies, one per body, in order |
| Wire.UpdatePostRequestRoundTrip | shared/src/commonMain/kotlin/com/ghostly/posts/models/UpdatePostModels.kt:6-9 | Decoding an encoded request gives it back |
| Wire.DecodeUpdatePostResponse | shared/src/commonMain/kotlin/com/ghostly/posts/models/UpdatePostModels.kt:40-43 | Decoding succeeds exactly when `posts` is an array whose items are all post objects that decode, server-shaped ones with `null` values and undeclared keys included; each decoded post is the decoding of the element in the same position |
| Wire.EncodeUpdatePostResponse | shared/src/commonMain/kotlin/com/ghostly/posts/models/UpdatePostModels.kt:40-43 | The response is the single key `posts` holding the encoded posts, one per post, in order |
| Wire.UpdatePostResponseRoundTrip | shared/src/commonMain/kotlin/com/ghostly/posts/models/UpdatePostModels.kt:40-43 | Decoding an encoded response gives it back |
| Mappers.MapSeq | shared/src/commonMain/kotlin/com/ghostly/mappers/Posts.kt:28-29 | `List.map` keeps the length and maps each element in place |
| Mappers.TagEntityToTag | shared/src/commonMain/kotlin/com/ghostly/mappers/Posts.kt:50-56 | `TagEntity.toTag` copies id, name and slug |
| Mappers.AuthorEntityToAuthor | shared/src/commonMain/kotlin/com/ghostly/mappers/Posts.kt:58-65 | `AuthorEntity.toAuthor` copies all four fields |
| Mappers.PostWithAuthorsAndTagsToPost | shared/src/commonMain/kotlin/com/ghostly/mappers/Posts.kt:14-31 | The post's scalars are the row's (`content` from `html`); its authors and tags are the joined rows converted one by one, same length and order |
| Mappers.PostToPostEntity | shared/src/commonMain/kotlin/com/ghostly/mappers/Posts.kt:33-48 | The row's twelve columns hold exactly the post's twelve scalar fields |
| Mappers.ScalarsDetermineRow | shared/src/commonMain/kotlin/com/ghostly/mappers/Posts.kt:33-48 | A row holds nothing beyond those twelve scalars |
| Mappers.PostEntityIgnoresRelations | shared/src/commonMain/kotlin/com/ghostly/mappers/Posts.kt:33-48 | The row does not depend on the post's authors or tags |
| Mappers.PostEntityRoundTrip | shared/src/commonMain/kotlin/com/ghostly/mappers/Posts.kt:14-48 | Converting a post to its row, re-attaching the row forms of its authors and tags and converting back gives the same post |
| Mappers.AuthorDtoToAuthor | shared/src/commonMain/kotlin/com/ghostly/mappers/Posts.kt:67-74 | `AuthorDto.toAuthor` copies all four fields |
| Mappers.TagDtoToTag | shared/src/commonMain/kotlin/com/ghostly/mappers/Posts.kt:76-82 | `TagDto.toTag` keeps the name and replaces an absent id or slug with `""` |
| Mappers.DecodedAuthorWithoutImage | shared/src/commonMain/kotlin/com/ghostly/mappers/Posts.kt:67-74 | An author object whose `profile_image` is `null` decodes and maps to an author without a profile image |
| Mappers.DecodedAuthorFields | shared/src/commonMain/kotlin/com/ghostly/mappers/Posts.kt:67-74 | A decoded author carries into the domain exactly the object's `id`, `name` and `slug` strings, and has no image exactly when `profile_image` is `null` |
| Mappers.DecodedTagWithOnlyName | shared/src/commonMain/kotlin/com/ghostly/mappers/Posts.kt:76-82 | A tag object carrying only `name` decodes and maps to a tag with that name and empty id and slug |
| Mappers.DecodedTagFields | shared/src/commonMain/kotlin/com/ghostly/mappers/Posts.kt:76-82 | A decoded tag's name is the object's; its id and slug are the object's strings, or `""` when the key is missing or `null` |
| Mappers.PostDtoToPost | shared/src/commonMain/kotlin/com/ghostly/mappers/Posts.kt:84-101 | `createdAt` is always `""`; absent slug and content become `""`; absent author and tag lists become empty; present lists are mapped element-wise; the other fields are copied |
| Mappers.PostDtoToPostIgnoresExtras | shared/src/commonMain/kotlin/com/ghostly/mappers/Posts.kt:84-101 | `uuid`, `lexical` and `mobiledoc` never influence the post |
| Mappers.DecodedPostDefaults | shared/src/commonMain/kotlin/com/ghostly/mappers/Posts.kt:87-90 | A response post sent without `html` and `slug` keys ends up with empty content and slug, and always an empty creation time |
| Text.Trim | androidApp/src/main/java/com/ghostly/android/posts/EditPostViewModel.kt:60 | `trim()` returns an infix surrounded only by whitespace that neither starts nor ends with whitespace |
| Text.TrimmedIsFixpoint | androidApp/src/main/java/com/ghostly/android/posts/EditPostViewModel.kt:60 | A string without whitespace at either end is its own trim |
| Text.TrimIdempotent | androidApp/src/main/java/com/ghostly/android/posts/EditPostViewModel.kt:60 | Trimming twice is trimming once |
| Text.CharEqualsIgnoreCase | androidApp/src/main/java/com/ghostly/android/posts/EditPostViewModel.kt:57 | Two characters are equal ignoring case exactly when their lower-case forms agree, and exactly when their upper-case forms agree |
| Text.EqualsIgnoreCase | androidApp/src/main/java/com/ghostly/android/posts/EditPostViewModel.kt:57 | `equals(other, ignoreCase = true)` holds for equal strings, only for strings of equal length, and exactly when the strings agree position by position after lower-casing |
| Text.Lower | androidApp/src/main/java/com/ghostly/android/posts/EditPostViewModel.kt:61 | `lowercase()` keeps the length and lower-cases each character in place |
| Text.ReplaceChar | androidApp/src/main/java/com/ghostly/android/posts/EditPostViewModel.kt:61 | `replace(" ", "-")` keeps the length and replaces exactly the spaces |
| Text.ReplaceCharRemoves | androidApp/src/main/java/com/ghostly/android/posts/EditPostViewModel.kt:61 | After `replace(" ", "-")` the result holds no space; in general, no occurrence of the replaced character remains |
| Text.ReplaceCharInverse | androidApp/src/main/java/com/ghostly/android/posts/EditPostViewModel.kt:61 | When the replacement character does not occur in the string, replacing back restores the string |
| Text.EqualsIgnoreCaseIffSameLower | androidApp/src/main/java/com/ghostly/android/posts/EditPostViewModel.kt:57 | Ignore-case equality holds exactly when the lower-cased strings are equal |
| Text.EqualsIgnoreCaseEquivalence | androidApp/src/main/java/com/ghostly/android/posts/EditPostViewModel.kt:57 | Ignore-case equality is reflexive, symmetric and transitive |
| Text.Decimal | androidApp/src/main/java/com/ghostly/android/posts/EditPostViewModel.kt:59 | A rendered clock reading is a non-empty string of digits |
| Text.DecimalRoundTrip | androidApp/src/main/java/com/ghostly/android/posts/EditPostViewModel.kt:59 | Reading a rendered number back gives the number |
| Text.DecimalInjective | androidApp/src/main/java/com/ghostly/android/posts/EditPostViewModel.kt:59 | Different numbers render differently |
| EditPost.InitializePost | androidApp/src/main/java/com/ghostly/android/posts/EditPostViewModel.kt:32-35 | The working copy becomes the given post |
| EditPost.UpdateTitle | androidApp/src/main/java/com/ghostly/android/posts/EditPostViewModel.kt:37-48 | No post loaded: nothing happens; otherwise the title is the new one and every other field, tags included, is unchanged |
| EditPost.UpdateExcerpt | androidApp/src/main/java/com/ghostly/android/posts/EditPostViewModel.kt:85-96 | No post loaded: nothing happens; otherwise the excerpt is the new one and every other field is unchanged |
| EditPost.UpdateContent | androidApp/src/main/java/com/ghostly/android/posts/EditPostViewModel.kt:98-101 | No post loaded: nothing happens; otherwise the content is the new one and every other field is unchanged |
| EditPost.EditsNeedAnInitializedPost | androidApp/src/main/java/com/ghostly/android/posts/EditPostViewModel.kt:32-101 | Edits before `initializePost` are lost; after it they land on the loaded post |
| EditPost.TextEditsCommute | androidApp/src/main/java/com/ghostly/android/posts/EditPostViewModel.kt:37-101 | Edits of different text fields commute; a later title edit overrides an earlier one |
| EditPost.TempId | androidApp/src/main/java/com/ghostly/android/posts/EditPostViewModel.kt:59 | A new tag's id is `temp_` followed by at least one more character |
| EditPost.TempIdInjective | androidApp/src/main/java/com/ghostly/android/posts/EditPostViewModel.kt:59 | Placeholder ids minted at different clock readings differ |
| EditPost.DeriveSlug | androidApp/src/main/java/com/ghostly/android/posts/EditPostViewModel.kt:61 | The slug is as long as the trimmed name, holds no space and no upper-case ASCII letter, and has `-` wherever the trimmed name has a space and the lower-cased character elsewhere |
| EditPost.AnyNamed | androidApp/src/main/java/com/ghostly/android/posts/EditPostViewModel.kt:57 | True exactly when some tag's name equals the argument ignoring case |
| EditPost.AddTag | androidApp/src/main/java/com/ghostly/android/posts/EditPostViewModel.kt:50-71 | No post loaded, or a tag already named like the untrimmed argument: nothing changes. Otherwise exactly one tag is appended, the earlier tags and all other fields are kept, and the new tag has the trimmed name, the derived slug and a `temp_` id |
| EditPost.AddTagAbsorbsCaseVariants | androidApp/src/main/java/com/ghostly/android/posts/EditPostViewModel.kt:57-70 | After adding a trimmed name, adding it again in any letter case changes nothing |
| EditPost.UntrimmedNameIsAddedTwice | androidApp/src/main/java/com/ghostly/android/posts/EditPostViewModel.kt:57-60 | Because the duplicate test uses the untrimmed argument, adding twice a new name with surrounding whitespace (such as `" a"`) appends two tags with the same trimmed name |
| EditPost.RemoveFirst | androidApp/src/main/java/com/ghostly/android/posts/EditPostViewModel.kt:78 | `MutableList.remove` leaves an absent element's list unchanged and otherwise cuts out only the first occurrence, keeping the order of the rest |
| EditPost.RemoveFirstMultiset | androidApp/src/main/java/com/ghostly/android/posts/EditPostViewModel.kt:78 | Removal takes away exactly one occurrence when there is one |
| EditPost.RemoveTag | androidApp/src/main/java/com/ghostly/android/posts/EditPostViewModel.kt:73-83 | No post loaded: nothing happens; otherwise only the tags change, losing one copy of the tag if present and nothing otherwise; the copy removed is the first one, and the other tags keep their order |
| EditPost.AddTagThenRemoveTag | androidApp/src/main/java/com/ghostly/android/posts/EditPostViewModel.kt:50-83 | For a trimmed, new name, removing the tag just added restores the working copy |
| EditPost.TagEditsAndTextEditsAreIndependent | androidApp/src/main/java/com/ghostly/android/posts/EditPostViewModel.kt:37-83 | Tag edits and title edits commute |
| EditPost.SavePost | androidApp/src/main/java/com/ghostly/android/posts/EditPostViewModel.kt:107-156 | No post: state `Saving`, no call made. Write error: `Error(message ?: "Unknown error")`, copy kept, nothing persisted, no refresh. Write success: `Success` after refreshing the same id. A refreshed post replaces the copy and is persisted; a null refresh changes nothing; a refresh error falls back to the write's post if non-null |
| EditPost.SavePersistsOnlyServerData | androidApp/src/main/java/com/ghostly/android/posts/EditPostViewModel.kt:115-148 | Whatever is persisted came back from the server after a successful write, and the working copy then shows it |
| EditPost.FailedSaveCanBeRetried | androidApp/src/main/java/com/ghostly/android/posts/EditPostViewModel.kt:150-153 | After a failed write the next save sends the very same post |
| EditPost.SaveLeavesIdle | androidApp/src/main/java/com/ghostly/android/posts/EditPostViewModel.kt:107-153 | A save never ends `Idle`, and ends `Saving` exactly when no post was loaded |
| Table.LastWithKey | shared/src/commonMain/kotlin/com/ghostly/database/dao/PostDao.kt:23-24 | Finds a row of the list with the key, with no later row carrying it, and finds nothing exactly when no row has the key |
| Table.Upsert | shared/src/commonMain/kotlin/com/ghostly/database/dao/PostDao.kt:20-21 | REPLACE: afterwards the row's key maps to the row and every other key is untouched |
| Table.UpsertAllLastRowWins | shared/src/commonMain/kotlin/com/ghostly/database/dao/PostDao.kt:23-24 | Inserting a list row by row leaves, under each key, the last row of the list with that key, and keeps keys the list does not mention |
| Table.UpsertIdempotent | shared/src/commonMain/kotlin/com/ghostly/database/dao/PostDao.kt:20-21 | Inserting a row twice is inserting it once |
| Table.UpsertAllIdempotent | shared/src/commonMain/kotlin/com/ghostly/database/dao/PostDao.kt:23-24 | Inserting a list twice is inserting it once |
| Table.UpdateExisting | shared/src/commonMain/kotlin/com/ghostly/database/dao/PostDao.kt:26-27 | `@Update` keeps the key set, overwrites the row with the same key if there is one, and leaves every other key untouched |
| Table.UpdateAllLastRowWins | shared/src/commonMain/kotlin/com/ghostly/database/dao/PostDao.kt:32-33 | Updating with a list keeps the key set and leaves, under each stored key, the last listed row with it, or the old row |
| Table.WritesKeepKeyed | shared/src/commonMain/kotlin/com/ghostly/database/dao/PostDao.kt:20-33 | Bulk inserts and updates keep every row under its own key |
| Table.InsertAllIsUnion | shared/src/commonMain/kotlin/com/ghostly/database/dao/PostDao.kt:76-77 | Inserting a list of pairs adds exactly the listed pairs |
| Table.Enumerate | shared/src/commonMain/kotlin/com/ghostly/database/dao/PostDao.kt:29-30 | A result set is returned as a list holding each of its rows exactly once |
| Dao.InsertPost | shared/src/commonMain/kotlin/com/ghostly/database/dao/PostDao.kt:20-21 | The post's id maps to the row, other posts are untouched, and no other table changes |
| Dao.InsertPosts | shared/src/commonMain/kotlin/com/ghostly/database/dao/PostDao.kt:23-24 | The last listed row with each id wins; unlisted ids keep their rows; no other table changes |
| Dao.UpdatePost | shared/src/commonMain/kotlin/com/ghostly/database/dao/PostDao.kt:26-27 | Overwrites only an existing post with the same id, never inserts, and leaves the store unchanged when the id is not stored |
| Dao.UpdatePosts | shared/src/commonMain/kotlin/com/ghostly/database/dao/PostDao.kt:32-33 | Keeps the set of stored ids; each stored post becomes the last listed row with its id, or stays |
| Dao.ClearPosts | shared/src/commonMain/kotlin/com/ghostly/database/dao/PostDao.kt:35-36 | `posts` is empty and every other table is unchanged |
| Dao.Join | shared/src/commonMain/kotlin/com/ghostly/database/dao/PostDao.kt:38-40 | The stored row with the post's authors and tags reached through existing cross-references, each once |
| Dao.GetPostWithAuthorsAndTags | shared/src/commonMain/kotlin/com/ghostly/database/dao/PostDao.kt:38-40 | Absent exactly when no post has the id; otherwise the post whose id is the one asked for, joined with its cross-referenced authors and tags |
| Dao.GetPostsByIds | shared/src/commonMain/kotlin/com/ghostly/database/dao/PostDao.kt:29-30 | Returns every stored post whose id is listed, each once with its relations, and nothing else |
| Dao.InsertAuthor | shared/src/commonMain/kotlin/com/ghostly/database/dao/PostDao.kt:49-50 | The author's id maps to the row, other authors are untouched, no other table changes |
| Dao.InsertAuthors | shared/src/commonMain/kotlin/com/ghostly/database/dao/PostDao.kt:52-53 | The last listed row with each id wins; no other table changes |
| Dao.ClearAuthors | shared/src/commonMain/kotlin/com/ghostly/database/dao/PostDao.kt:55-56 | `authors` is empty and every other table is unchanged |
| Dao.InsertTag | shared/src/commonMain/kotlin/com/ghostly/database/dao/PostDao.kt:61-62 | The tag's id maps to the row, other tags are untouched, no other table changes |
| Dao.InsertTags | shared/src/commonMain/kotlin/com/ghostly/database/dao/PostDao.kt:64-65 | The last listed row with each id wins; no other table changes |
| Dao.ClearTags | shared/src/commonMain/kotlin/com/ghostly/database/dao/PostDao.kt:67-68 | `tags` is empty and every other table is unchanged |
| Dao.InsertPostAuthorCrossRef | shared/src/commonMain/kotlin/com/ghostly/database/dao/PostDao.kt:73-74 | The pair is present and no other pair or table changed |
| Dao.InsertPostAuthorCrossRefs | shared/src/commonMain/kotlin/com/ghostly/database/dao/PostDao.kt:76-77 | The table holds exactly the old pairs and the listed ones |
| Dao.ClearPostAuthorCrossRefs | shared/src/commonMain/kotlin/com/ghostly/database/dao/PostDao.kt:79-80 | `post_author_cross_ref` is empty and every other table is unchanged |
| Dao.InsertPostTagCrossRef | shared/src/commonMain/kotlin/com/ghostly/database/dao/PostDao.kt:85-86 | The pair is present and no other pair or table changed |
| Dao.InsertPostTagCrossRefs | shared/src/commonMain/kotlin/com/ghostly/database/dao/PostDao.kt:88-89 | The table holds exactly the old pairs and the listed ones |
| Dao.ClearPostTagCrossRefsOf | shared/src/commonMain/kotlin/com/ghostly/database/dao/PostDao.kt:91-92 | Exactly the pairs of that post are removed; every other pair and table is kept |
| Dao.ClearPostTagCrossRefs | shared/src/commonMain/kotlin/com/ghostly/database/dao/PostDao.kt:94-95 | `post_tag_cross_ref` is empty and every other table is unchanged |
| Dao.SingleInsertsIdempotent | shared/src/commonMain/kotlin/com/ghostly/database/dao/PostDao.kt:20-86 | Repeating any single-row insert changes nothing |
| Dao.BulkInsertsIdempotent | shared/src/commonMain/kotlin/com/ghostly/database/dao/PostDao.kt:23-89 | Repeating any list insert changes nothing |
| Dao.InsertPostsIsFold | shared/src/commonMain/kotlin/com/ghostly/database/dao/PostDao.kt:20-24 | `insertPosts` is `insertPost` of the first row followed by `insertPosts` of the rest |
| Dao.InsertAuthorsIsFold | shared/src/commonMain/kotlin/com/ghostly/database/dao/PostDao.kt:49-53 | `insertAuthors` is `insertAuthor` of the first row followed by `insertAuthors` of the rest |
| Dao.InsertTagsIsFold | shared/src/commonMain/kotlin/com/ghostly/database/dao/PostDao.kt:61-65 | `insertTags` is `insertTag` of the first row followed by `insertTags` of the rest |
| Dao.ClearsKeepWellKeyed | shared/src/commonMain/kotlin/com/ghostly/database/dao/PostDao.kt:35-68 | The empty store and the table-wide clears keep every row under its own id |
| Dao.PostWritesKeepWellKeyed | shared/src/commonMain/kotlin/com/ghostly/database/dao/PostDao.kt:20-33 | Inserts and updates of posts keep every row under its own id |
| Dao.AuthorAndTagWritesKeepWellKeyed | shared/src/commonMain/kotlin/com/ghostly/database/dao/PostDao.kt:49-65 | Inserts of authors and tags keep every row under its own id |
| Dao.ReplacePostTags | shared/src/commonMain/kotlin/com/ghostly/database/dao/PostDao.kt:85-92 | Clearing a post's tag pairs and inserting a new list for it leaves that post with exactly the listed pairs and every other post with its old ones |
| Dao.ClearPostsOrphansCrossRefs | shared/src/commonMain/kotlin/com/ghostly/database/dao/PostDao.kt:35-36 | After `PostDao.clearAll` no post is found, while the cross-reference rows remain |
| Dao.ClearPostAuthorCrossRefsUnjoins | shared/src/commonMain/kotlin/com/ghostly/database/dao/PostDao.kt:79-80 | After `PostAuthorCrossRefDao.clearAll` no post is joined to any author, and every post keeps its joined tags |
| Dao.ClearPostTagCrossRefsUnjoins | shared/src/commonMain/kotlin/com/ghostly/database/dao/PostDao.kt:94-95 | After `PostTagCrossRefDao.clearAll` no post is joined to any tag, and every post keeps its joined authors |
| Dao.ClearPostTagCrossRefsOfUnjoins | shared/src/commonMain/kotlin/com/ghostly/database/dao/PostDao.kt:91-92 | After `clearPostTagCrossRefs(postId)` that post is joined to no tag, and every other post keeps its joined tags |
| Dao.ClearAuthorsUnjoins | shared/src/commonMain/kotlin/com/ghostly/database/dao/PostDao.kt:55-56 | After `AuthorDao.clearAll` no post is joined to any author, joined tags are kept, and the author cross-reference rows stay |
| Dao.ClearTagsUnjoins | shared/src/commonMain/kotlin/com/ghostly/database/dao/PostDao.kt:67-68 | After `TagDao.clearAll` no post is joined to any tag, joined authors are kept, and the tag cross-reference rows stay |
| Dao.StoredPostReadsBack | shared/src/commonMain/kotlin/com/ghostly/database/dao/PostDao.kt:20-21 | A post stored through `toPostEntity` and read back with the row forms of its authors and tags is the same post |

## Left out

- `getAllPostsWithAuthorsAndTags` (PostDao.kt:42-44): a Room-generated `PagingSource` whose implementation is not visible.
- `StateFlow`, `viewModelScope.launch`, the re-emission of the `Flow` returned by `getPostWithAuthorsAndTags`, and `@Transaction` atomicity: concurrency and observation are not modelled. A read is the value at one instant, and each operation is one atomic step.
- `println` logging, and `getUpdatedPost`, which only returns the working copy.
- `PostRepository.updatePost`, `refreshPostFromServer` and `PostDataSource.updatePost`: their bodies are not part of this model. `SavePost` takes their answers as inputs and reports the post it hands to the data source.
- The JSON text syntax, numbers and booleans, and the app's `Json` configuration: JSON is an abstract value. Keys a record does not declare are ignored, and encoding leaves out absent optional properties.
- Text.Lower: lower-cases only the ASCII letters; Kotlin's `lowercase()` maps all of Unicode.
- Text.CharEqualsIgnoreCase: compares case only for the ASCII letters, for the same reason.
- Text.EqualsIgnoreCase: inherits the ASCII-only case comparison, so `"É"` and `"é"` are not equal ignoring case in the model, though they are in Kotlin.
- EditPost.AnyNamed: inherits it too, so `addTag("É")` on a post that already has a tag `"é"` appends a second tag in the model, where Kotlin changes nothing.
- EditPost.DeriveSlug: inherits the ASCII-only lower-casing, so the slug of `"É"` keeps the upper-case letter, where Kotlin writes `"é"`.
- EditPost.TempId: takes the clock reading as a natural number, so a negative `System.currentTimeMillis()` (rendered with a `-`) is not modelled. Only the `temp_` prefix is relied on.
- Dao.ClearPosts: deletes only from `posts`. Any foreign-key cascade is declared in entity files that are not part of this model, so cross-reference rows survive (see `Dao.ClearPostsOrphansCrossRefs`).
- Dao.InsertPostAuthorCrossRef and Dao.InsertPostTagCrossRef: never fail. A foreign-key check against missing post, author or tag rows would be declared in those same entity files.
- Dao.GetPostWithAuthorsAndTags and Dao.GetPostsByIds: return the joined rows in an order the implementation chooses. SQL leaves the order open; only the contents are specified.
- Dao.GetPostWithAuthorsAndTags and Dao.GetPostsByIds: require every row to be stored under its own id. The writes keep this invariant (`Dao.PostWritesKeepWellKeyed`, `Dao.AuthorAndTagWritesKeepWellKeyed`, `Dao.ClearsKeepWellKeyed`), and Room guarantees it for a primary key.
- The edit screen trims the input and skips blank names before calling `addTag` (EditPostScreen.kt:247-248, not part of this model). `AddTag` accepts any name. The trimming appears only as the precondition `Trim(name) == name` of `EditPost.AddTagThenRemoveTag` and `EditPost.AddTagAbsorbsCaseVariants`. The blank-name check appears in no precondition.
