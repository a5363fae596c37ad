# Radpress models, in Dafny

Radpress is a small blogging add-on for Django. Its only logic beyond field
declarations lives in `radpress/models.py`:

- **`Article.content_by_more`** cuts an article's rendered HTML body at the first
  occurrence of the configured "more" marker (`MORE_TAG`). When the marker is
  there, the text before it is stripped of surrounding whitespace and `</div>` is
  appended, so the list page can show a teaser. When the marker is absent, the body
  is returned unchanged.
- **`EntryImage.get_thumbnail_url`** returns nothing unless `size` is a 2-tuple.
  Otherwise it asks easy_thumbnails for a cropped thumbnail of that size, and
  rewrites every `MEDIA_ROOT/` in the thumbnail's URL into `MEDIA_URL`.
  **`EntryImage.thumbnail_tag`** wraps a 50x50 thumbnail in an anchor that links
  to the original image, for the admin list.
- **`Entry.save`** renders the restructured-text `content` into `content_body`,
  then persists the entry (Article and Page both inherit it).

The project has two modules:

- `PyStr.dfy` (module `PyStr`) models the Python string built-ins this code uses:
  the left-to-right search behind `str.split(sep, 1)`, `str.strip()`, and
  `str.replace(old, new)`.
- `Radpress.dfy` (module `Radpress`) models the three pieces of `models.py`.
  - The two pure pieces are functions.
  - `Entry.save` is a method on a class `Entry` whose fields the method assigns.
  - The database row that `super().save()` writes is the field `stored`.

The model uses these modelling choices:

- **Whitespace.** `strip()` removes the characters that Python 2.7's `unicode.isspace()`
  accepts: 0x09-0x0D, 0x1C-0x20, U+0085, U+00A0, U+1680, U+180E, U+2000-U+200A,
  U+2028, U+2029, U+202F, U+205F and U+3000. The code is Python 2 (`unicode(...)`,
  `__unicode__`). Python 3.4 and later drop U+180E from this set.
- **Marker.** `MORE_TAG` comes from `radpress/settings.py`, which is not part of this
  model. It is a parameter `moreTag`.
- **Media settings.** `MEDIA_ROOT` and `MEDIA_URL` are the parameter `MediaSettings`.
- **Thumbnailer.** The thumbnailer is a function parameter `Thumbnailer` from the
  image path and the options `{'size': size, 'crop': True}` to the thumbnail's URL.
- **Renderer.** The restructured-text renderer is a function parameter `Renderer`.
  Its result `None` stands for the renderer raising an exception.
- **Database.** Whether the database accepts the row that `super().save()` writes is
  the predicate parameter `accepts`. A refusal, such as a duplicate `slug`, stands for
  that call raising.

A marker can overlap the text before it, as with `"aa"` in `"a" + "aa"`. So the
split point is the first occurrence in the whole body. It is not necessarily the
end of a marker-free prefix. The lemmas are stated with `FirstOccurrence`.

## Model

| member | source | states |
|---|---|---|
| `PyStr.FindFrom` | radpress/models.py:97 | the search that `split` performs: a returned index is an occurrence of the marker at or after the start, and none lies between the start and it. `None` means there is no occurrence at or after the start |
| `PyStr.FindFirstIsFirstOccurrence` | radpress/models.py:97 | the search from 0 finds nothing exactly when the marker does not occur, and otherwise returns exactly the leftmost occurrence |
| `PyStr.SplitOnce` | radpress/models.py:97-98 | `split(sep, 1)` gives one piece, equal to the input, exactly when `sep` does not occur. Otherwise it gives two pieces with `s == before + sep + after`, where `before` ends at the leftmost occurrence |
| `PyStr.IsSpaceSparesMarkup` | radpress/models.py:101 | the contract of `IsSpace`, the set `strip()` removes: space, tab, newline and carriage return are whitespace, and no printable ASCII character (`!` to `~`) is, so stripping never removes part of a tag |
| `PyStr.Strip` | radpress/models.py:101 | `strip()` returns the slice of its input between a run of leading whitespace and a run of trailing whitespace. The result neither starts nor ends with whitespace |
| `PyStr.StripCharacterized` | radpress/models.py:101 | for any whitespace runs `w1` and `w2` and any `t` without whitespace at either end, `strip(w1 + t + w2) == t`, so strip's result is determined uniquely |
| `PyStr.SkipSpacesStopsAt` | radpress/models.py:101 | the leading scan of `strip()` stops exactly at the first non-whitespace character |
| `PyStr.SkipSpacesBackStopsAt` | radpress/models.py:101 | the trailing scan of `strip()` stops exactly after the last non-whitespace character |
| `PyStr.StripIdempotent` | radpress/models.py:101 | stripping twice gives the same result as stripping once |
| `PyStr.NoOccurrenceInSlice` | radpress/models.py:98-101 | a string without the marker has no marker in any slice of it, including the stripped prefix |
| `PyStr.PrefixBeforeFirstIsFree` | radpress/models.py:97-98 | the text before the leftmost marker contains no marker |
| `PyStr.Replace` | radpress/models.py:36-37 | `str.replace` for a non-empty pattern: without an occurrence the input comes back unchanged, and a replacement as long as the pattern keeps the length. Its full meaning is stated by `ReplaceMatchesScan`, `ReplaceWithItself` and `ReplaceLeading` |
| `PyStr.ReplaceScan` | radpress/models.py:36-37 | the reference definition of the substitution, one position at a time: a replacement as long as the pattern keeps the length. `ReplaceMatchesScan` ties it to `Replace` |
| `PyStr.ReplaceMatchesScan` | radpress/models.py:36-37 | `replace` (find the leftmost occurrence, replace it, continue after it) equals, on every input, the reference definition that walks position by position |
| `PyStr.ScanSkipsFree` | radpress/models.py:36-37 | the position-by-position replace keeps every character before the first place the pattern can start |
| `PyStr.ScanAtOccurrence` | radpress/models.py:36-37 | where the pattern starts, the position-by-position replace emits the replacement and resumes after the occurrence |
| `PyStr.ScanWithoutOccurrence` | radpress/models.py:36-37 | where the search finds no occurrence, the position-by-position replace returns its input unchanged |
| `PyStr.ScanAtFirstOccurrence` | radpress/models.py:36-37 | at the leftmost occurrence `i`, the position-by-position replace is `s[..i]` + replacement + the replace of what follows the occurrence, which is the step `Replace` takes |
| `PyStr.ReplaceWithItself` | radpress/models.py:36-37 | replacing the pattern by itself returns the input, so `replace` only changes the occurrences it rewrites |
| `PyStr.ReplaceLeading` | radpress/models.py:36-37 | a leading occurrence followed by text free of the pattern becomes the replacement followed by that text |
| `Radpress.ContentByMore` | radpress/models.py:95-103 | without the marker the teaser is the body exactly, untrimmed. With it, the teaser is `strip(body[..i]) + "</div>"`, where `i` is the leftmost occurrence. `ContentByMoreOnlyFirstMarker` and `ContentByMoreTeaserShape` state what follows from this |
| `Radpress.TeaserCut` | radpress/models.py:97-101 | when the marker occurs, there is a leftmost occurrence `i`, and the teaser is `strip(body[..i]) + "</div>"` |
| `Radpress.StrippedPrefixIsFree` | radpress/models.py:97-101 | the stripped text before the leftmost marker contains no marker |
| `Radpress.ContentByMoreOnlyFirstMarker` | radpress/models.py:97 | replacing everything after the first marker, including later markers, leaves the teaser unchanged |
| `Radpress.ContentByMoreTeaserShape` | radpress/models.py:97-101 | when the marker occurs, the teaser ends in `</div>`. The part before that suffix contains no marker and has no leading or trailing whitespace |
| `Radpress.RootPrefix` | radpress/models.py:36-37 | the replaced prefix `MEDIA_ROOT + "/"` is non-empty and ends in `/` |
| `Radpress.GetThumbnailUrl` | radpress/models.py:30-39 | the result is `None` exactly when `size` is not a 2-tuple |
| `Radpress.GetThumbnailUrlConsultsOnlyRequest` | radpress/models.py:30-35 | two thumbnailers that agree on the one request (this image's path, `size`, crop on) give the same result. For a size that is not a 2-tuple, any two thumbnailers give the same result, so none is consulted |
| `Radpress.GetThumbnailUrlWithoutRoot` | radpress/models.py:36-39 | a thumbnail URL without `MEDIA_ROOT/` is returned unchanged |
| `Radpress.GetThumbnailUrlRebased` | radpress/models.py:36-39 | a thumbnail URL `MEDIA_ROOT/` + rest, with no further `MEDIA_ROOT/` in rest, becomes `MEDIA_URL` + rest |
| `Radpress.GetThumbnailUrlReplacesEveryOccurrence` | radpress/models.py:36-37 | for a 2-tuple size, the URL is the thumbnailer's URL with every occurrence of `MEDIA_ROOT/` replaced by `MEDIA_URL`, left to right and without overlap, following the reference definition |
| `Radpress.AnchorTag` | radpress/models.py:44-45 | the anchor markup starts with `<a href="` followed by the link target and a closing quote |
| `Radpress.ThumbnailTag` | radpress/models.py:41-45 | the tag is the anchor for the original image URL, with the rewritten URL of the thumbnail requested at size `(50, 50)` with cropping, and height `50` |
| `Radpress.ThumbnailTagRequests50` | radpress/models.py:41-45 | the tag depends on the thumbnailer only through the 50x50 cropped request for this image, and its `href` is the original image URL |
| `Radpress.Entry.constructor` | radpress/models.py:67-71 | a new entry has the given title, slug, content and published flag, an empty body and no stored row |
| `Radpress.Entry.Save` | radpress/models.py:84-87 | the outcome is `RenderFailed` exactly when rendering fails, and then nothing is assigned or stored. Otherwise `content_body == render(content)` is assigned first. The outcome is then `Saved` exactly when the database accepts the row, and in that case the stored row is the entry's current values. On `PersistFailed` the new body stays on the object and the stored row is unchanged. `title`, `slug`, `content` and `is_published` never change. A successful save establishes the invariant "the stored body is the rendering of the stored content", and every outcome keeps it |

## Left out

- `SplitOnce` and `ContentByMore` require a non-empty marker. Python raises `ValueError` for an empty separator. An empty `MORE_TAG` is a configuration error, not a case the code handles.
- `Replace` requires a non-empty pattern. Python's rule for an empty pattern is not modelled. The only pattern used is `MEDIA_ROOT + "/"`, which is never empty.
- `GetThumbnailUrl`: the items of the `size` tuple are integers. A 2-tuple of other values also passes the guard in Python and goes to the thumbnailer as it is.
- The thumbnailer is an uninterpreted parameter. Its resizing, cropping and on-disk cache are not modelled, because they are foreign library I/O. Exceptions it raises (for example, a missing image file) are not modelled either.
- The restructured-text renderer (`radpress.templatetags.radpress_tags.restructuredtext`, which uses docutils) is an uninterpreted parameter. It is not part of this model.
- `Entry.Save`: the persisting call to Django's `Model.save` is modelled as storing a snapshot of the fields when `accepts` holds, and as raising otherwise. Its keyword arguments, insert versus update, and the reasons the database refuses a row are not modelled.
- The `created_at`/`updated_at` timestamps (`auto_now_add`/`auto_now`) are not modelled, because they depend on the clock and are set by the framework.
- Article and Page add nothing to the save hook. The class `Entry` stands for both. Article's `cover_image` and `tags` are ORM relations and are not modelled.
- The ORM declarations are not modelled: Tag, ArticleTag and Menu, the uniqueness of slugs, `Menu.page` and `unique_together`, and `Meta.ordering`. They are enforced by the database, not by code in this file.
- `EntryManager.all_published` is not modelled. It is a query filter evaluated by the database layer.
- The `__unicode__` display helpers and the admin attributes `allow_tags` and `short_description` are not modelled. They carry no behaviour worth stating.
- `radpress/urls.py` is not modelled. It is a declarative routing table matched by Django's dispatcher, and its views are not part of this model.
