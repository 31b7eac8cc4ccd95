/** The draft state of the post creator (`client/js/post-creator.js`): the tag list, the
    Enter-key tag input, validation before publishing, media processing, and `clear`.

    Uploading a file is a parameter `upload` that either yields a URL or fails; drafts and
    publishing go through `db.create` and `db.delete`, which the database module does not define,
    and are not part of this model. */
module PostCreator {
  import opened Wrappers
  import Text

  /** A media item as the editor reports it: its id, the file handle and its MIME type. */
  datatype MediaItem = MediaItem(id: string, file: string, kind: string)

  /** A processed media item: the id and type carried over, with the uploaded URL. */
  datatype MediaUrl = MediaUrl(id: string, url: string, kind: string)

  datatype Post = Post(
    id: Option<string>,
    title: string,
    content: string,
    media: seq<MediaItem>,
    tags: seq<string>,
    analysis: Option<string>)

  /** The post the constructor starts from and `clear` returns to. */
  const EmptyPost: Post := Post(None, "", "", [], [], None)

  predicate NoDuplicates(tags: seq<string>) {
    forall i, j | 0 <= i < j < |tags| :: tags[i] != tags[j]
  }

  /** `Array.prototype.indexOf` for a tag known to be present. */
  function FirstIndex(tags: seq<string>, t: string): (i: nat)
    requires t in tags
    ensures i < |tags| && tags[i] == t && t !in tags[..i]
  {
    if tags[0] == t then 0 else 1 + FirstIndex(tags[1..], t)
  }

  /** `addTag`: append the tag unless it is already in the list. */
  function AddTag(p: Post, t: string): (r: Post)
    ensures t in p.tags ==> r == p
    ensures t !in p.tags ==> r == p.(tags := p.tags + [t])
  {
    if t in p.tags then p else p.(tags := p.tags + [t])
  }

  /** `removeTag`: splice out the first occurrence of the tag, if there is one. */
  function RemoveTag(p: Post, t: string): (r: Post)
    ensures t !in p.tags ==> r == p
    ensures t in p.tags ==> r == p.(tags := r.tags) && |r.tags| == |p.tags| - 1
    ensures multiset(r.tags) == multiset(p.tags) - multiset{t}
    ensures t in p.tags ==>
              exists i | 0 <= i < |p.tags| && p.tags[i] == t && t !in p.tags[..i] ::
                r.tags == p.tags[..i] + p.tags[i + 1..]
  {
    if t !in p.tags then p
    else
      var i := FirstIndex(p.tags, t);
      assert p.tags == p.tags[..i] + [t] + p.tags[i + 1..];
      p.(tags := p.tags[..i] + p.tags[i + 1..])
  }

  /** Adding keeps the tag list free of duplicates and the tag is then present. */
  lemma AddTagKeepsDistinct(p: Post, t: string)
    requires NoDuplicates(p.tags)
    ensures NoDuplicates(AddTag(p, t).tags)
    ensures t in AddTag(p, t).tags
    ensures (set x | x in AddTag(p, t).tags) == (set x | x in p.tags) + {t}
  {
  }

  /** Removing from a duplicate-free list keeps it duplicate-free and the tag is then absent. */
  lemma RemoveTagKeepsDistinct(p: Post, t: string)
    requires NoDuplicates(p.tags)
    ensures NoDuplicates(RemoveTag(p, t).tags)
    ensures t !in RemoveTag(p, t).tags
    ensures (set x | x in RemoveTag(p, t).tags) == (set x | x in p.tags) - {t}
  {
    if t in p.tags {
      SpliceOut(p.tags, FirstIndex(p.tags, t));
    }
  }

  /** Splicing the entry at `i` out of a duplicate-free list leaves exactly the other entries,
      still without duplicates. */
  lemma SpliceOut(s: seq<string>, i: nat)
    requires NoDuplicates(s) && i < |s|
    ensures var r := s[..i] + s[i + 1..];
            && NoDuplicates(r) && s[i] !in r
            && (forall x | x in r :: x in s)
            && (forall x | x in s && x != s[i] :: x in r)
  {
    var r := s[..i] + s[i + 1..];
    assert forall k | 0 <= k < |r| :: r[k] == if k < i then s[k] else s[k + 1];
    forall x | x in s && x != s[i] ensures x in r {
      var k :| 0 <= k < |s| && s[k] == x;
      if k < i { assert r[k] == x; } else { assert r[k - 1] == x; }
    }
  }

  /** Adding a new tag and removing it again gives back the post. */
  lemma AddThenRemoveTag(p: Post, t: string)
    requires t !in p.tags
    ensures RemoveTag(AddTag(p, t), t) == p
  {
    var tags := p.tags + [t];
    assert FirstIndex(tags, t) == |p.tags|;
    assert tags[..|p.tags|] == p.tags;
  }

  /** The tag input's Enter handler: the trimmed input is added when it is not blank, and the
      field is emptied; a blank input changes nothing. Returns the post and the field's value. */
  function TagInputEnter(p: Post, input: string): (r: (Post, string))
    ensures Text.Trim(input) == [] ==> r == (p, input)
    ensures Text.Trim(input) != [] ==> r.0 == AddTag(p, Text.Trim(input)) && r.1 == ""
  {
    var t := Text.Trim(input);
    if t == [] then (p, input) else (AddTag(p, t), "")
  }

  /** An entered tag carries no surrounding whitespace. */
  lemma EnteredTagIsTrimmed(p: Post, input: string)
    requires NoDuplicates(p.tags)
    requires forall i | 0 <= i < |p.tags| :: p.tags[i] != [] && Text.Trim(p.tags[i]) == p.tags[i]
    ensures var q := TagInputEnter(p, input).0;
            NoDuplicates(q.tags) && forall i | 0 <= i < |q.tags| :: q.tags[i] != [] && Text.Trim(q.tags[i]) == q.tags[i]
  {
    Text.TrimIdempotent(input);
    AddTagKeepsDistinct(p, Text.Trim(input));
  }

  const TitleMissing: string := "Please add a title"
  const ContentMissing: string := "Please add some content"

  /** `validatePost`: `None` when the post may be published, otherwise the message shown. */
  function ValidatePost(p: Post): (r: Option<string>)
    ensures Text.Trim(p.title) == [] ==> r == Some(TitleMissing)
    ensures Text.Trim(p.title) != [] && Text.Trim(p.content) == [] ==> r == Some(ContentMissing)
  {
    if Text.Trim(p.title) == [] then Some(TitleMissing)
    else if Text.Trim(p.content) == [] then Some(ContentMissing)
    else None
  }

  /** A post passes exactly when both title and content have a non-whitespace character. */
  lemma ValidatePostMeansNonBlank(p: Post)
    ensures ValidatePost(p).None? <==>
            (exists i | 0 <= i < |p.title| :: !Text.IsWhitespace(p.title[i]))
            && (exists i | 0 <= i < |p.content| :: !Text.IsWhitespace(p.content[i]))
  {
  }

  /** `processMediaFiles`: upload each item in order; the first failure aborts the whole call with
      its error, otherwise one `{id, url, type}` per item, in order. */
  method ProcessMediaFiles(media: seq<MediaItem>, upload: string -> Result<string, string>)
    returns (r: Result<seq<MediaUrl>, string>)
    ensures r.Success? <==> forall i | 0 <= i < |media| :: upload(media[i].file).Success?
    ensures r.Success? ==> |r.value| == |media| && forall i | 0 <= i < |media| ::
              r.value[i] == MediaUrl(media[i].id, upload(media[i].file).value, media[i].kind)
    ensures r.Failure? ==> exists k | 0 <= k < |media| ::
              upload(media[k].file) == Failure(r.error)
              && forall i | 0 <= i < k :: upload(media[i].file).Success?
  {
    var urls: seq<MediaUrl> := [];
    var i := 0;
    while i < |media|
      invariant 0 <= i <= |media| && |urls| == i
      invariant forall j | 0 <= j < i :: upload(media[j].file).Success?
      invariant forall j | 0 <= j < i ::
                  urls[j] == MediaUrl(media[j].id, upload(media[j].file).value, media[j].kind)
    {
      var u := upload(media[i].file);
      if u.Failure? {
        return Failure(u.error);
      }
      urls := urls + [MediaUrl(media[i].id, u.value, media[i].kind)];
      i := i + 1;
    }
    return Success(urls);
  }

  /** `clear`: back to the empty post. */
  function Clear(p: Post): (r: Post)
    ensures r.id.None? && r.analysis.None?
    ensures r.title == "" && r.content == "" && r.media == [] && r.tags == []
  {
    EmptyPost
  }

  /** A cleared post has no tags to remove, cannot be published, and takes any first tag. */
  lemma ClearedPostIsBlank(p: Post, t: string)
    ensures ValidatePost(Clear(p)) == Some(TitleMissing)
    ensures RemoveTag(Clear(p), t) == Clear(p)
    ensures AddTag(Clear(p), t).tags == [t]
  {
  }
}
