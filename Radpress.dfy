/** The logic of radpress/models.py: the teaser cut of an article's rendered
    body (`Article.content_by_more`), the thumbnail URL of a cover image
    (`EntryImage.get_thumbnail_url`, `EntryImage.thumbnail_tag`) and the save
    hook that renders an entry's source text into its HTML body (`Entry.save`). */
module Radpress {
  import opened PyStr

  // ---------------------------------------------------------------------------
  // Article.content_by_more
  // ---------------------------------------------------------------------------

  /** Closing tag appended to a teaser, ending the container the author opened
      before the "more" marker. */
  const CloseDiv: string := "</div>"

  /** `Article.content_by_more`: split the rendered body once at the configured
      marker (`MORE_TAG`); when it was found, keep the stripped text before it and
      close the container, otherwise keep the body as it is. */
  function ContentByMore(contentBody: string, moreTag: string): (teaser: string)
    requires |moreTag| > 0
    ensures !Contains(contentBody, moreTag) ==> teaser == contentBody
    ensures forall i :: FirstOccurrence(contentBody, moreTag, i) ==> teaser == Strip(contentBody[..i]) + CloseDiv
  {
    FindFirstIsFirstOccurrence(contentBody, moreTag);
    var contentList := SplitOnce(contentBody, moreTag);
    var content := contentList[0];
    if |contentList| > 1 then
      assert contentBody[..|content|] == content;
      Strip(content) + CloseDiv
    else
      content
  }

  /** Only the first marker matters: whatever follows it (further markers
      included) can be replaced without changing the teaser. */
  lemma ContentByMoreOnlyFirstMarker(contentBody: string, moreTag: string, i: nat, tail: string)
    requires |moreTag| > 0 && FirstOccurrence(contentBody, moreTag, i)
    ensures ContentByMore(contentBody[..i + |moreTag|] + tail, moreTag) == ContentByMore(contentBody, moreTag)
  {
    var other := contentBody[..i + |moreTag|] + tail;
    forall j | 0 <= j <= i
      ensures OccursAt(other, moreTag, j) <==> OccursAt(contentBody, moreTag, j)
    {
      assert other[j..j + |moreTag|] == contentBody[j..j + |moreTag|];
    }
    assert FirstOccurrence(other, moreTag, i);
    assert other[..i] == contentBody[..i];
  }

  /** When the marker occurs, the teaser ends with the closing tag, and what
      precedes the tag is a piece of the body before the first marker: it holds no
      marker and neither starts nor ends with whitespace. */
  lemma ContentByMoreTeaserShape(contentBody: string, moreTag: string)
    requires |moreTag| > 0 && Contains(contentBody, moreTag)
    ensures var r := ContentByMore(contentBody, moreTag);
      |r| >= |CloseDiv| && r[|r| - |CloseDiv|..] == CloseDiv &&
      var t := r[..|r| - |CloseDiv|];
      !Contains(t, moreTag) && (t == [] || (!IsSpace(t[0]) && !IsSpace(t[|t| - 1])))
  {
    var i := TeaserCut(contentBody, moreTag);
    var t := Strip(contentBody[..i]);
    StrippedPrefixIsFree(contentBody, moreTag, i);
    var r := t + CloseDiv;
    assert r[..|r| - |CloseDiv|] == t;
    assert r[|r| - |CloseDiv|..] == CloseDiv;
  }

  /** The index of the first marker, at which the teaser is cut. */
  lemma TeaserCut(contentBody: string, moreTag: string) returns (i: nat)
    requires |moreTag| > 0 && Contains(contentBody, moreTag)
    ensures FirstOccurrence(contentBody, moreTag, i)
    ensures ContentByMore(contentBody, moreTag) == Strip(contentBody[..i]) + CloseDiv
  {
    i := |SplitOnce(contentBody, moreTag)[0]|;
  }

  /** The stripped text before the first marker holds no marker. */
  lemma StrippedPrefixIsFree(contentBody: string, moreTag: string, i: nat)
    requires |moreTag| > 0 && FirstOccurrence(contentBody, moreTag, i)
    ensures !Contains(Strip(contentBody[..i]), moreTag)
  {
    var prefix := contentBody[..i];
    PrefixBeforeFirstIsFree(contentBody, moreTag, i);
    var lo := LeadingSpaceCount(prefix);
    NoOccurrenceInSlice(prefix, moreTag, lo, lo + |Strip(prefix)|);
  }

  // ---------------------------------------------------------------------------
  // EntryImage.get_thumbnail_url and EntryImage.thumbnail_tag
  // ---------------------------------------------------------------------------

  /** An uploaded image: its description, its file-system path and its public URL. */
  datatype EntryImage = EntryImage(name: string, path: string, url: string)

  /** The `size` argument as Python sees it: a tuple of some length, or any
      other value. */
  datatype SizeArg = Tuple(items: seq<int>) | NotATuple

  /** The options handed to the thumbnailer: `{'size': size, 'crop': True}`. */
  datatype ThumbnailOptions = ThumbnailOptions(size: seq<int>, crop: bool)

  /** The two framework settings the URL rewrite reads. */
  datatype MediaSettings = MediaSettings(mediaRoot: string, mediaUrl: string)

  /** The easy_thumbnails collaborator: from an image path and the options, the
      URL of the (possibly freshly generated) thumbnail. */
  type Thumbnailer = (string, ThumbnailOptions) -> string

  predicate IsPair(size: SizeArg)
  {
    size.Tuple? && |size.items| == 2
  }

  /** The prefix the rewrite replaces: `'%s/' % MEDIA_ROOT`. */
  function RootPrefix(media: MediaSettings): (p: string)
    ensures |p| > 0 && p[|p| - 1] == '/'
  {
    media.mediaRoot + "/"
  }

  /** `EntryImage.get_thumbnail_url`: nothing unless `size` is a 2-tuple;
      otherwise ask the thumbnailer for a cropped thumbnail of that size and turn
      every `MEDIA_ROOT/` in its URL into `MEDIA_URL`. */
  function GetThumbnailUrl(image: EntryImage, size: SizeArg, media: MediaSettings, thumbnailer: Thumbnailer)
    : (url: Option<string>)
    ensures url.None? <==> !IsPair(size)
  {
    if !IsPair(size) then None
    else
      var thumbUrl := thumbnailer(image.path, ThumbnailOptions(size.items, true));
      Some(Replace(thumbUrl, RootPrefix(media), media.mediaUrl))
  }

  /** The resolver consults the thumbnailer only for a 2-tuple size, and then only
      about this image's path with that size and cropping on: two thumbnailers
      that agree on that one request give the same answer, and for any other size
      no thumbnailer is consulted at all. */
  lemma GetThumbnailUrlConsultsOnlyRequest(image: EntryImage, size: SizeArg, media: MediaSettings,
                                           t1: Thumbnailer, t2: Thumbnailer)
    requires IsPair(size) ==>
      t1(image.path, ThumbnailOptions(size.items, true)) == t2(image.path, ThumbnailOptions(size.items, true))
    ensures GetThumbnailUrl(image, size, media, t1) == GetThumbnailUrl(image, size, media, t2)
  {
  }

  /** A thumbnail URL that does not mention `MEDIA_ROOT/` is returned unchanged. */
  lemma GetThumbnailUrlWithoutRoot(image: EntryImage, size: SizeArg, media: MediaSettings, thumbnailer: Thumbnailer)
    requires IsPair(size)
    requires !Contains(thumbnailer(image.path, ThumbnailOptions(size.items, true)), RootPrefix(media))
    ensures GetThumbnailUrl(image, size, media, thumbnailer) ==
      Some(thumbnailer(image.path, ThumbnailOptions(size.items, true)))
  {
  }

  /** A thumbnail file under `MEDIA_ROOT` is served from under `MEDIA_URL`: the
      root prefix becomes the public prefix and the rest of the path is kept. */
  lemma GetThumbnailUrlRebased(image: EntryImage, size: SizeArg, media: MediaSettings, thumbnailer: Thumbnailer,
                               rest: string)
    requires IsPair(size)
    requires thumbnailer(image.path, ThumbnailOptions(size.items, true)) == RootPrefix(media) + rest
    requires !Contains(rest, RootPrefix(media))
    ensures GetThumbnailUrl(image, size, media, thumbnailer) == Some(media.mediaUrl + rest)
  {
    ReplaceLeading(RootPrefix(media), media.mediaUrl, rest);
  }

  /** The rewrite agrees with the position-by-position reading of "replace every
      occurrence, left to right, without overlap". */
  lemma GetThumbnailUrlReplacesEveryOccurrence(image: EntryImage, size: SizeArg, media: MediaSettings,
                                               thumbnailer: Thumbnailer)
    requires IsPair(size)
    ensures GetThumbnailUrl(image, size, media, thumbnailer) ==
      Some(ReplaceScan(thumbnailer(image.path, ThumbnailOptions(size.items, true)), RootPrefix(media), media.mediaUrl))
  {
    ReplaceMatchesScan(thumbnailer(image.path, ThumbnailOptions(size.items, true)), RootPrefix(media), media.mediaUrl);
  }

  /** Side of the admin thumbnail, used both as the requested size and as the
      `img` height. */
  const TagHeight: int := 50

  /** `TagHeight` as `'%s'` formats it in the `height` attribute. */
  const TagHeightText: string := "50"

  /** The opening of the admin's anchor, up to and including its link. */
  function HrefOpen(href: string): string
  {
    "<a href=\"" + href + "\""
  }

  /** The admin's anchor markup: a link to `href` that opens in a new window,
      around an image from `src` of the given height. */
  function AnchorTag(href: string, src: string, height: string): (tag: string)
    ensures |HrefOpen(href)| <= |tag| && tag[..|HrefOpen(href)|] == HrefOpen(href)
  {
    var rest := " target=\"_blank\"><img src=\"" + src + "\" height=\"" + height + "\" /></a>";
    assert (HrefOpen(href) + rest)[..|HrefOpen(href)|] == HrefOpen(href);
    HrefOpen(href) + rest
  }

  /** `EntryImage.thumbnail_tag`: the anchor for the admin list, linking the
      original image and showing its 50x50 cropped thumbnail at height 50. */
  function ThumbnailTag(image: EntryImage, media: MediaSettings, thumbnailer: Thumbnailer): (tag: string)
    ensures tag == AnchorTag(image.url,
      Replace(thumbnailer(image.path, ThumbnailOptions([50, 50], true)), RootPrefix(media), media.mediaUrl),
      TagHeightText)
  {
    var height := TagHeight;
    var url := GetThumbnailUrl(image, Tuple([height, height]), media, thumbnailer);
    AnchorTag(image.url, url.value, TagHeightText)
  }

  /** The tag depends on the thumbnailer only through the 50x50 cropped request
      for this image, and its link is the original image's URL. */
  lemma ThumbnailTagRequests50(image: EntryImage, media: MediaSettings, t1: Thumbnailer, t2: Thumbnailer)
    requires t1(image.path, ThumbnailOptions([50, 50], true)) == t2(image.path, ThumbnailOptions([50, 50], true))
    ensures ThumbnailTag(image, media, t1) == ThumbnailTag(image, media, t2)
    ensures var tag := ThumbnailTag(image, media, t1);
      |HrefOpen(image.url)| <= |tag| && tag[..|HrefOpen(image.url)|] == HrefOpen(image.url)
  {
  }

  // ---------------------------------------------------------------------------
  // Entry.save
  // ---------------------------------------------------------------------------

  /** The restructured-text to HTML converter; `None` stands for the converter
      raising an exception. */
  type Renderer = string -> Option<string>

  /** The values of an entry as the database holds them after a save. */
  datatype EntryRow = EntryRow(title: string, slug: string, content: string, contentBody: string, isPublished: bool)

  /** How a save ended: stored, or the exception it raised and where. */
  datatype SaveOutcome = Saved | RenderFailed | PersistFailed

  /** An entry (the common part of Article and Page) as an in-memory object. */
  class Entry {
    var title: string
    var slug: string
    var content: string
    var contentBody: string
    var isPublished: bool
    /** The row written by the last successful save; None before the first. */
    var stored: Option<EntryRow>

    /** A new, unsaved entry; the body is the field's empty default. */
    constructor (title: string, slug: string, content: string, isPublished: bool)
      ensures this.title == title && this.slug == slug && this.content == content
      ensures this.isPublished == isPublished
      ensures contentBody == "" && stored == None
    {
      this.title := title;
      this.slug := slug;
      this.content := content;
      this.isPublished := isPublished;
      contentBody := "";
      stored := None;
    }

    /** The object's field values as a row. */
    function Row(): EntryRow
      reads this
    {
      EntryRow(title, slug, content, contentBody, isPublished)
    }

    /** The stored body is the rendering of the stored source text. */
    ghost predicate StoredRendered(render: Renderer)
      reads this
    {
      stored.Some? ==> render(stored.value.content) == Some(stored.value.contentBody)
    }

    /** `Entry.save`: render the source text into the body, then persist through
      the framework. A rendering failure raises before anything is assigned. A
      row the database refuses (`accepts` is false, for instance for a taken
      slug) raises after the body was assigned, so the object keeps the new body
      while the stored row stays as it was. */
    method Save(render: Renderer, accepts: EntryRow -> bool) returns (outcome: SaveOutcome)
      modifies this
      ensures outcome == RenderFailed <==> render(old(content)).None?
      ensures title == old(title) && slug == old(slug) && content == old(content)
      ensures isPublished == old(isPublished)
      ensures outcome == RenderFailed ==> contentBody == old(contentBody) && stored == old(stored)
      ensures outcome != RenderFailed ==> render(content) == Some(contentBody)
      ensures outcome != RenderFailed ==> (outcome == Saved <==> accepts(Row()))
      ensures outcome == Saved ==> stored == Some(Row())
      ensures outcome == PersistFailed ==> stored == old(stored)
      ensures outcome == Saved ==> StoredRendered(render)
      ensures old(StoredRendered(render)) ==> StoredRendered(render)
    {
      var body := render(content);
      if body.None? {
        return RenderFailed;
      }
      contentBody := body.value;
      if !accepts(Row()) {
        return PersistFailed;
      }
      stored := Some(Row());
      outcome := Saved;
    }
  }
}
