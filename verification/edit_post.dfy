/**
 * The edit session of `EditPostViewModel.kt`: a working copy of one post (absent until a post
 * is loaded), the pure edits applied to it, and the decision `savePost` takes once the remote
 * write and the remote refresh have answered. The remote calls are inputs and the clock is a
 * parameter; nothing here waits, logs or publishes state.
 */
module EditPost {
  import opened Common
  import opened Models
  import opened Text
  import Network

  /** `EditPostUiState`. */
  datatype UiState = Idle | Saving | Success | Error(message: string)

  /** The view model's `_post`: the post being edited, or `None` before `initializePost`. */
  type WorkingCopy = Option<Post>

  function InitializePost(p: Post): (r: WorkingCopy)
    ensures r.Some? && r.value == p
  {
    Some(p)
  }

  // ---------------------------------------------------------------------------------------
  // Text edits

  function UpdateTitle(w: WorkingCopy, title: string): (r: WorkingCopy)
    ensures w.None? ==> r.None?
    ensures w.Some? ==> r.Some? && r.value.title == title && r.value.(title := w.value.title) == w.value
  {
    if w.Some? then Some(w.value.(title := title)) else None
  }

  function UpdateExcerpt(w: WorkingCopy, excerpt: string): (r: WorkingCopy)
    ensures w.None? ==> r.None?
    ensures w.Some? ==> r.Some? && r.value.excerpt == Some(excerpt) && r.value.(excerpt := w.value.excerpt) == w.value
  {
    if w.Some? then Some(w.value.(excerpt := Some(excerpt))) else None
  }

  function UpdateContent(w: WorkingCopy, content: string): (r: WorkingCopy)
    ensures w.None? ==> r.None?
    ensures w.Some? ==> r.Some? && r.value.content == content && r.value.(content := w.value.content) == w.value
  {
    match w
    case None => None
    case Some(p) => Some(p.(content := content))
  }

  /** Edits only take effect once a post is loaded; after `initializePost` they land on that post. */
  lemma EditsNeedAnInitializedPost(p: Post, title: string, excerpt: string, content: string)
    ensures UpdateContent(UpdateExcerpt(UpdateTitle(None, title), excerpt), content) == None
    ensures UpdateContent(UpdateExcerpt(UpdateTitle(InitializePost(p), title), excerpt), content)
            == Some(p.(title := title, excerpt := Some(excerpt), content := content))
  {
  }

  /** Edits of different fields commute, and a later edit of the same field overrides an earlier one. */
  lemma TextEditsCommute(w: WorkingCopy, title: string, excerpt: string, content: string, title2: string)
    ensures UpdateTitle(UpdateContent(w, content), title) == UpdateContent(UpdateTitle(w, title), content)
    ensures UpdateTitle(UpdateExcerpt(w, excerpt), title) == UpdateExcerpt(UpdateTitle(w, title), excerpt)
    ensures UpdateExcerpt(UpdateContent(w, content), excerpt) == UpdateContent(UpdateExcerpt(w, excerpt), content)
    ensures UpdateTitle(UpdateTitle(w, title2), title) == UpdateTitle(w, title)
  {
  }

  // ---------------------------------------------------------------------------------------
  // Tags

  const TempPrefix: string := "temp_"

  /** An id minted locally for a tag the server has not acknowledged yet. */
  predicate IsPlaceholder(id: string) {
    |id| >= |TempPrefix| && id[..|TempPrefix|] == TempPrefix
  }

  /** The placeholder id `"temp_${System.currentTimeMillis()}"` for a clock reading of `millis`. */
  function TempId(millis: nat): (r: string)
    ensures IsPlaceholder(r) && |r| > |TempPrefix|
  {
    TempPrefix + Decimal(millis)
  }

  /** Placeholders minted at different instants differ. */
  lemma TempIdInjective(m: nat, n: nat)
    ensures TempId(m) == TempId(n) ==> m == n
  {
    if TempId(m) == TempId(n) {
      assert Decimal(m) == TempId(m)[|TempPrefix|..];
      assert Decimal(n) == TempId(n)[|TempPrefix|..];
      DecimalInjective(m, n);
    }
  }

  /** The slug derived for a new tag: `name.trim().lowercase().replace(" ", "-")`. */
  function DeriveSlug(name: string): (r: string)
    ensures |r| == |Trim(name)|
    ensures forall i | 0 <= i < |r| :: r[i] != ' ' && !('A' <= r[i] <= 'Z')
    ensures forall i | 0 <= i < |r| :: r[i] == (if Trim(name)[i] == ' ' then '-' else LowerChar(Trim(name)[i]))
  {
    var t := Trim(name);
    var r := ReplaceChar(Lower(t), ' ', '-');
    forall i | 0 <= i < |r|
      ensures r[i] == (if t[i] == ' ' then '-' else LowerChar(t[i]))
      ensures r[i] != ' ' && !('A' <= r[i] <= 'Z')
    {
      assert Lower(t)[i] == LowerChar(t[i]);
      assert LowerChar(t[i]) == ' ' <==> t[i] == ' ';
    }
    r
  }

  /** The tag `addTag(name)` creates when the clock reads `millis`. */
  function NewTag(name: string, millis: nat): Tag {
    Tag(id := TempId(millis), name := Trim(name), slug := DeriveSlug(name))
  }

  /** `tags.any { it.name.equals(name, ignoreCase = true) }`. */
  function AnyNamed(tags: seq<Tag>, name: string): (r: bool)
    ensures r <==> exists i | 0 <= i < |tags| :: EqualsIgnoreCase(tags[i].name, name)
  {
    if tags == [] then false
    else EqualsIgnoreCase(tags[0].name, name) || AnyNamed(tags[1..], name)
  }

  /**
   * `addTag`: when no tag already carries `name` ignoring case, appends a new placeholder tag.
   * The duplicate test uses `name` as given, before trimming.
   */
  function AddTag(w: WorkingCopy, name: string, millis: nat): (r: WorkingCopy)
    ensures w.None? ==> r.None?
    ensures w.Some? && (exists i | 0 <= i < |w.value.tags| :: EqualsIgnoreCase(w.value.tags[i].name, name)) ==> r == w
    ensures w.Some? && !(exists i | 0 <= i < |w.value.tags| :: EqualsIgnoreCase(w.value.tags[i].name, name)) ==>
              && r.Some?
              && r.value.(tags := w.value.tags) == w.value
              && |r.value.tags| == |w.value.tags| + 1
              && r.value.tags[..|w.value.tags|] == w.value.tags
              && var t := r.value.tags[|w.value.tags|];
                 && t.name == Trim(name)
                 && t.slug == DeriveSlug(name)
                 && IsPlaceholder(t.id)
  {
    match w
    case None => None
    case Some(p) =>
      if AnyNamed(p.tags, name) then w
      else Some(p.(tags := p.tags + [NewTag(name, millis)]))
  }

  /** `indexOf(x)`: the position of the first element equal to `x`, or the length when there is none. */
  function IndexOf<T(==)>(xs: seq<T>, x: T): (i: nat)
    ensures i <= |xs|
    ensures i < |xs| ==> xs[i] == x
    ensures forall j | 0 <= j < i :: xs[j] != x
  {
    if xs == [] then 0
    else if xs[0] == x then 0
    else 1 + IndexOf(xs[1..], x)
  }

  /** `MutableList.remove(x)`: drops the first element equal to `x`, if there is one. */
  function RemoveFirst<T(==)>(xs: seq<T>, x: T): (r: seq<T>)
    ensures x !in xs ==> r == xs
    ensures x in xs ==> exists i | 0 <= i < |xs| :: xs[i] == x && x !in xs[..i] && r == xs[..i] + xs[i + 1..]
  {
    var i := IndexOf(xs, x);
    if i == |xs| then xs
    else
      assert x !in xs[..i];
      xs[..i] + xs[i + 1..]
  }

  /** Removing drops exactly one occurrence when there is one, and nothing otherwise. */
  lemma RemoveFirstMultiset<T>(xs: seq<T>, x: T)
    ensures multiset(RemoveFirst(xs, x)) == multiset(xs) - multiset{x}
  {
    var i := IndexOf(xs, x);
    if i < |xs| {
      assert RemoveFirst(xs, x) == xs[..i] + xs[i + 1..];
      MultisetOfCut(xs, i);
    } else {
      assert x !in xs;
      assert multiset(xs)[x] == 0;
    }
  }

  /** Cutting out one position removes exactly that element from the multiset. */
  lemma MultisetOfCut<T>(xs: seq<T>, i: nat)
    requires i < |xs|
    ensures multiset(xs[..i] + xs[i + 1..]) == multiset(xs) - multiset{xs[i]}
  {
    assert xs == xs[..i] + [xs[i]] + xs[i + 1..];
  }

  /** `removeTag`: the working copy loses the first tag equal to `tag`; nothing else changes. */
  function RemoveTag(w: WorkingCopy, tag: Tag): (r: WorkingCopy)
    ensures w.None? ==> r.None?
    ensures w.Some? ==> && r.Some?
                        && r.value.(tags := w.value.tags) == w.value
                        && (tag !in w.value.tags ==> r.value.tags == w.value.tags)
                        && (tag in w.value.tags ==> |r.value.tags| == |w.value.tags| - 1)
                        && multiset(r.value.tags) == multiset(w.value.tags) - multiset{tag}
    ensures w.Some? && tag in w.value.tags ==>
              exists i | 0 <= i < |w.value.tags| :: && w.value.tags[i] == tag && tag !in w.value.tags[..i]
                                                     && r.value.tags == w.value.tags[..i] + w.value.tags[i + 1..]
  {
    match w
    case None => None
    case Some(p) =>
      RemoveFirstMultiset(p.tags, tag);
      Some(p.(tags := RemoveFirst(p.tags, tag)))
  }

  /** Removing the last element of a list it occurs in nowhere else gives the rest back. */
  lemma RemoveFirstOfAppended<T>(xs: seq<T>, x: T)
    requires x !in xs
    ensures RemoveFirst(xs + [x], x) == xs
  {
    var ys := xs + [x];
    assert ys[|xs|] == x;
    assert forall j | 0 <= j < |xs| :: ys[j] == xs[j];
    assert IndexOf(ys, x) == |xs|;
    assert ys[..|xs|] == xs;
  }

  /**
   * With a name as the screen passes it (already trimmed), removing the tag `addTag` just
   * created undoes the addition.
   */
  lemma AddTagThenRemoveTag(w: WorkingCopy, name: string, millis: nat)
    requires w.Some? && Trim(name) == name
    requires !AnyNamed(w.value.tags, name)
    ensures RemoveTag(AddTag(w, name, millis), NewTag(name, millis)) == w
  {
    var p := w.value;
    var t := NewTag(name, millis);
    assert AddTag(w, name, millis) == Some(p.(tags := p.tags + [t]));
    EqualsIgnoreCaseEquivalence(name, name, name);
    forall i | 0 <= i < |p.tags| ensures p.tags[i] != t {
      assert !EqualsIgnoreCase(p.tags[i].name, name);
      assert EqualsIgnoreCase(t.name, name);
    }
    RemoveFirstOfAppended(p.tags, t);
  }

  /**
   * With a trimmed name, adding it again, or any spelling of it that differs only in case,
   * changes nothing: "Tech" then "tech" leaves one tag.
   */
  lemma AddTagAbsorbsCaseVariants(w: WorkingCopy, name: string, variant: string, millis1: nat, millis2: nat)
    requires Trim(name) == name && EqualsIgnoreCase(name, variant)
    ensures AddTag(AddTag(w, name, millis1), variant, millis2) == AddTag(w, name, millis1)
  {
    if w.Some? {
      var tags := w.value.tags;
      if AnyNamed(tags, name) {
        var i :| 0 <= i < |tags| && EqualsIgnoreCase(tags[i].name, name);
        EqualsIgnoreCaseEquivalence(tags[i].name, name, variant);
      } else {
        var w1 := AddTag(w, name, millis1);
        assert w1.value.tags[|tags|].name == name;
        assert EqualsIgnoreCase(w1.value.tags[|tags|].name, variant);
      }
    }
  }

  /**
   * The duplicate test sees the untrimmed argument: a name with surrounding whitespace never
   * matches the trimmed tag it produced, so adding it twice yields two tags of the same name.
   */
  lemma UntrimmedNameIsAddedTwice(w: WorkingCopy, name: string, millis1: nat, millis2: nat)
    requires w.Some? && !AnyNamed(w.value.tags, name)
    requires Trim(name) != name
    ensures AddTag(AddTag(w, name, millis1), name, millis2)
            == Some(w.value.(tags := w.value.tags + [NewTag(name, millis1), NewTag(name, millis2)]))
  {
    var p := w.value;
    var t1 := NewTag(name, millis1);
    var k: nat :| Padded(name, k, Trim(name));
    assert |Trim(name)| < |name|;
    assert !EqualsIgnoreCase(t1.name, name);
    assert AddTag(w, name, millis1) == Some(p.(tags := p.tags + [t1]));
    assert !AnyNamed(p.tags + [t1], name) by {
      var tags := p.tags + [t1];
      forall i | 0 <= i < |tags| ensures !EqualsIgnoreCase(tags[i].name, name) {
        if i < |p.tags| {
          assert tags[i] == p.tags[i];
        }
      }
    }
    assert p.tags + [t1] + [NewTag(name, millis2)] == p.tags + [t1, NewTag(name, millis2)];
  }

  /** Tag edits leave the text fields alone and text edits leave the tags alone. */
  lemma TagEditsAndTextEditsAreIndependent(w: WorkingCopy, name: string, millis: nat, tag: Tag, title: string)
    ensures AddTag(UpdateTitle(w, title), name, millis) == UpdateTitle(AddTag(w, name, millis), title)
    ensures RemoveTag(UpdateTitle(w, title), tag) == UpdateTitle(RemoveTag(w, tag), title)
  {
  }

  // ---------------------------------------------------------------------------------------
  // Saving

  /**
   * What one `savePost` run leaves behind: the final UI state, the working copy, the post handed
   * to the local data source (if any), the post sent to the remote write (if any), and the id the
   * remote refresh was asked for (if any).
   */
  datatype SaveResult = SaveResult(
    ui: UiState,
    post: WorkingCopy,
    persisted: Option<Post>,
    sent: Option<Post>,
    refreshed: Option<string>)

  /**
   * `savePost`, given the answers of `postRepository.updatePost` (`write`) and of
   * `postRepository.refreshPostFromServer` (`refresh`). The answers are consulted only when the
   * code would have made the call.
   */
  function SavePost(w: WorkingCopy, write: Network.Result<Option<Post>>, refresh: Network.Result<Option<Post>>): (r: SaveResult)
    // No post loaded: the state is left at Saving and no call is made.
    ensures w.None? ==> r == SaveResult(Saving, None, None, None, None)
    ensures w.Some? ==> r.sent == w
    // The write failed: Error with its message, the working copy kept for a retry, nothing persisted.
    ensures w.Some? && write.Error? ==> && r.ui == Error(write.message.OrElse("Unknown error"))
                                        && r.post == w && r.persisted.None? && r.refreshed.None?
    // The write succeeded: always Success, after a refresh of the same id.
    ensures w.Some? && write.Success? ==> r.ui == Success && r.refreshed == Some(w.value.id)
    ensures w.Some? && write.Success? && refresh.Success? && refresh.data.Some? ==>
              r.post == refresh.data && r.persisted == refresh.data
    ensures w.Some? && write.Success? && refresh.Success? && refresh.data.None? ==>
              r.post == w && r.persisted.None?
    ensures w.Some? && write.Success? && refresh.Error? && write.data.Some? ==>
              r.post == write.data && r.persisted == write.data
    ensures w.Some? && write.Success? && refresh.Error? && write.data.None? ==>
              r.post == w && r.persisted.None?
  {
    match w
    case None => SaveResult(Saving, None, None, None, None)
    case Some(post) =>
      match write
      case Error(message) => SaveResult(Error(message.OrElse("Unknown error")), w, None, w, None)
      case Success(written) =>
        match refresh
        case Success(refreshed) =>
          if refreshed.Some? then SaveResult(Success, refreshed, refreshed, w, Some(post.id))
          else SaveResult(Success, w, None, w, Some(post.id))
        case Error(_) =>
          if written.Some? then SaveResult(Success, written, written, w, Some(post.id))
          else SaveResult(Success, w, None, w, Some(post.id))
  }

  /**
   * Whatever the answers, a save never persists the locally composed copy on its own authority:
   * a persisted post is one the server returned, and the working copy then shows that same post.
   */
  lemma SavePersistsOnlyServerData(w: WorkingCopy, write: Network.Result<Option<Post>>, refresh: Network.Result<Option<Post>>)
    ensures var r := SavePost(w, write, refresh);
            r.persisted.Some? ==> && r.post == r.persisted
                                  && write.Success?
                                  && ((refresh.Success? && r.persisted == refresh.data)
                                      || (refresh.Error? && r.persisted == write.data))
  {
  }

  /** A failed save can be retried as is: the next save sends the very same post again. */
  lemma FailedSaveCanBeRetried(w: WorkingCopy, message: Option<string>, refresh: Network.Result<Option<Post>>,
                               write2: Network.Result<Option<Post>>, refresh2: Network.Result<Option<Post>>)
    requires w.Some?
    ensures var r := SavePost(w, Network.Error(message), refresh);
            r.ui.Error? && SavePost(r.post, write2, refresh2).sent == w
  {
  }

  /** After a save the state is never Idle again; it is Saving only when there was nothing to save. */
  lemma SaveLeavesIdle(w: WorkingCopy, write: Network.Result<Option<Post>>, refresh: Network.Result<Option<Post>>)
    ensures SavePost(w, write, refresh).ui != Idle
    ensures SavePost(w, write, refresh).ui == Saving <==> w.None?
  {
  }
}
