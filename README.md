# Hero image extractor: the page-URL to image-target rules

The scraper in `main.py` visits a list of article URLs. For each one it takes
a "hero" image source from the page, makes that source absolute, and
downloads the image to `images/<stem><ext>`. This project models the
decisions behind that download and proves properties about them:

- **File name stem** (`sanitize_filename`, module `Sanitize`). An
  `http://` or `https://` scheme is dropped together with the host and the
  slash after it. Every trailing `/` is removed. Each character outside
  `[A-Za-z0-9_-]` becomes `_`. At most 100 characters are kept.
- **Source selection** (module `HeroImage`). On a page whose URL contains
  `/videos/`, the `og:image` meta content comes first. Otherwise, or when
  that content is empty or missing, the `src` of the first `figure img` is
  used. An empty string counts as missing. A lookup that raises ends the
  processing of that URL.
- **Source resolution**. A source starting with `//` gets the page URL's
  text before its first `:`, followed by `:`. Any other source starting with
  `/` gets the first three `/`-separated fields of the page URL, joined by
  `/`. Every other source is kept as it is. This is the program's own
  simplified rule, not full reference resolution as defined in section 5.2
  of RFC 3986.
- **Extension**. The extension comes from `os.path.splitext` with its POSIX
  meaning (module `PosixPath`). It defaults to `.jpg`, gets a leading dot
  if it lacks one, and is replaced by `.jpg` unless its lower-case form is
  one of `.jpg .jpeg .png .gif .webp`.
- **Target path**. The path is `os.path.join("images", stem + ext)`.
- **The driver loop** (module `Extract`). The `for url in urls` loop becomes
  a method. It returns the download requests it would issue, in order. The
  browser is a parameter `render` that maps a URL to what the page shows.
  The per-URL body is an imperative method that reassigns `image_src` and
  `file_ext` as the source does, proved equal to the functional
  specification `HeroImage.Process`.

Python's `str` operations are modelled in module `Text`. These are `split`
and `join` with one character, `startswith`, `endswith`, `in`, `rfind`,
`rstrip`, `lower` and clamped slicing. `Scenarios` works through concrete
inputs.

Where the comments in `main.py` read differently, the model follows the code:

- The comment says "Remove trailing slash", but `path.rstrip('/')` removes
  every trailing slash, not only one.
- The comment says "Remove scheme and domain", but the pattern
  `^https?://[^/]+/` strips a prefix only for `http` and `https`, and only
  when a non-empty host is followed by `/`. A URL such as
  `https://site.com` (no slash after the host) or `ftp://h/x` is kept whole.

Also, the step at `main.py:84-85` that puts a dot in front of the extension
can never fire. `splitext` returns either an empty extension, which becomes
`.jpg`, or one that starts with a dot (`HeroImage.ExtensionOrDefault`).

## Model

| member | source | states |
|---|---|---|
| Sanitize.SanitizeFilename | main.py:10-19 | the stem is at most 100 characters, all in `[A-Za-z0-9_-]`; its length is min(100, n) for the stripped and right-trimmed path of length n, and position i holds that path's character i when allowed and `_` otherwise |
| Sanitize.StripSchemeAndHost | main.py:13 | when `^https?://[^/]+/` matches `url[..k]` the result is `url[k..]`; when no such k exists the URL is returned unchanged |
| Sanitize.SchemeLength | main.py:13 | 8 exactly for an `https://` prefix, 7 exactly for `http://`, 0 otherwise |
| Text.RStrip | main.py:15 | `rstrip('/')` keeps a prefix that does not end in `/`, and everything it drops is `/` |
| Sanitize.ReplaceDisallowed | main.py:17 | the substitution is one for one: same length, allowed characters stay in place, all others become `_` |
| Text.Take | main.py:19 | `s[:100]` is the prefix of `s` of length min(100, len(s)) |
| Sanitize.SanitizeFixedPoint | main.py:10-19 | a name of at most 100 allowed characters is its own stem |
| Sanitize.SanitizeIdempotent | main.py:10-19 | sanitizing an already sanitized name changes nothing |
| Text.Find | main.py:13 | the first `/` at or after `start`, or the length when there is none |
| Text.ContainsIffOccurs | main.py:53 | `"/videos/" in url` holds exactly when the marker occurs at some index |
| HeroImage.IsVideoPage | main.py:53 | a page is a video page exactly when `/videos/` occurs somewhere in its URL |
| HeroImage.Truthy | main.py:57-69 | `None` and the empty string are false and every non-empty string is true, as `if image_src` / `if not image_src` test |
| HeroImage.SelectSource | main.py:48-69 | a chosen source is non-empty and is either the video page's `og:image` content or the `figure img` src; non-empty `og:image` content wins on a video page; otherwise the outcome is decided by the `figure img` lookup alone; a lookup error ends the URL exactly when a lookup that runs raises |
| HeroImage.NonVideoIgnoresOgImage | main.py:53-64 | on a page that is not a video page, the `og:image` value never affects the selection |
| HeroImage.VideoOgImageShadowsFigure | main.py:53-64 | on a video page with `og:image` content, the `figure img` value never affects the selection |
| Text.Split | main.py:75-77 | `split` yields at least one field and no field contains the separator |
| Text.Join | main.py:77 | `c.join(parts)` starts with the first part |
| Text.JoinOccurrences | main.py:77 | joining fields free of `c` puts exactly one `c` between each two of them |
| Text.JoinSplit | main.py:75-77 | joining the fields of a split with the same separator gives back the text |
| Text.JoinTakeSplit | main.py:77 | `c.join(s.split(c)[:n])` is `s` cut just before its n-th `c`, or all of `s` when it has fewer |
| Text.FirstFieldCut | main.py:75 | `s.split(c)[0]` is `s` cut before its first `c` |
| Text.CutBeforeUnique | main.py:75-77 | that cut is unique, so it characterises the split-and-join result |
| HeroImage.Resolve | main.py:72-78 | a source not starting with `/` is unchanged; a `//` source ends with `:` plus the source, preceded by the page URL up to its first `:`; another `/` source ends with the source, preceded by the page URL up to its third `/` |
| HeroImage.ResolveProtocolRelative | main.py:74-75 | with `scheme` the page URL's text before its first `:`, a `//` source resolves to `scheme:src` |
| HeroImage.ResolveRootRelative | main.py:76-78 | with `base` the page URL up to its third `/`, a root-relative source resolves to `base + src` |
| HeroImage.ResolveProtocolRelativeUrl | main.py:74-75 | on a page URL `scheme:rest` with no `:` in `scheme`, a `//` source becomes `scheme:src` |
| HeroImage.ResolveRootRelativeUrl | main.py:76-78 | on a page URL `scheme//host` followed by nothing or by `/...`, with no `/` in scheme or host, a root-relative source becomes `scheme//host` followed by the source |
| HeroImage.ResolveKeepsSource | main.py:72-78 | the resolved URL always ends with the scraped source |
| Text.LastIndex | main.py:82 | `rfind` gives -1 or an index holding the character, with none of that character after it |
| Text.LastIndexAppend | main.py:82 | `rfind` on a concatenation finds the right part's last occurrence first |
| PosixPath.SplitExt | main.py:82 | root plus extension is the path; the extension is empty or a dot followed by no dot and no `/`; it is non-empty exactly when the final component has a dot with a non-dot character before it |
| PosixPath.HasExtensionIff | main.py:82 | the index test in `splitext` is exactly that characterisation |
| PosixPath.SplitExtIgnoresPrefix | main.py:72-82 | text put in front of a path starting with `/` does not change its extension |
| PosixPath.SplitExtOfShape | main.py:82 | a final component with a non-dot character, then a dot and no further dot or `/`, has exactly that dotted tail as its extension |
| HeroImage.ExtensionOrDefault | main.py:82-85 | `splitext(...)[1] or ".jpg"` always starts with a dot |
| HeroImage.ChooseExtension | main.py:82-91 | the lower-cased extension is always one of the five allowed ones and holds no `/`; it is `.jpg` or the `splitext` extension, and an allowed `splitext` extension is kept in its own case |
| Text.Lower | main.py:89 | `lower()` keeps the length and folds each character on its own |
| HeroImage.DefaultIsValid | main.py:82-91 | `.jpg` is allowed and holds no `/` |
| HeroImage.ValidHasNoSeparator | main.py:88-89 | an extension whose lower-case form is allowed holds no `/` |
| HeroImage.NoSeparatorInValid | main.py:88 | none of the allowed extensions holds a `/` |
| HeroImage.ResolveKeepsExtension | main.py:72-91 | resolution never changes the chosen extension |
| HeroImage.ChooseExtensionIgnoresPrefix | main.py:72-91 | text put in front of a source starting with `/` does not change the chosen extension |
| PosixPath.Join | main.py:94 | `os.path.join(a, b)` ends with `b`; it is `b` when `b` is absolute; otherwise it is `a + "/" + b` when `a` is non-empty and does not end in `/`, and `a + b` when `a` is empty or ends in `/` |
| HeroImage.TargetPath | main.py:80-94 | the path is `images/` + the page URL's stem + the image URL's chosen extension, with no `/` after `images/` |
| HeroImage.FileNameHasNoSeparator | main.py:93-94 | the file name holds no `/`, so the join puts it directly under `images/` |
| HeroImage.Process | main.py:48-104 | a URL yields a download exactly when the page loads and a source is chosen, and no image exactly when the page loads and no source is found; the download's URL is the chosen source resolved against the page URL (so it ends with that source), and its path is `images/` + stem + chosen extension |
| Extract.ProcessUrl | main.py:48-104 | the step-by-step body of the `try` block gives the outcome `Process` specifies |
| Extract.Outcomes | main.py:46-104 | one outcome per URL, in order, each the processing of that URL on its own |
| Extract.Downloads | main.py:96 | there are no more downloads than outcomes |
| Extract.DownloadsAppend | main.py:46-96 | the downloads of two runs back to back are those of each, in order |
| Extract.DownloadsIff | main.py:96 | a request is issued exactly when some outcome asks for it |
| Extract.Requests | main.py:46-104 | a run issues no more downloads than it has URLs (`RequestsExtend` gives the per-URL form) |
| Extract.RequestsExtend | main.py:46-96 | processing one more URL appends its download, if any, and changes nothing before it |
| Extract.RequestsComeFromUrls | main.py:46-96 | a request is issued exactly when processing one of the URLs asks for it |
| Extract.RequestSavesInImagesDir | main.py:80-96 | every download goes directly under `images/`, with the stem of one of the URLs and an allowed extension |
| Extract.RequestFetchesResolvedSource | main.py:46-96 | every request downloads the resolved form of the source chosen on one of the loaded pages |
| Extract.ExtractHeroImages | main.py:46-104 | the loop issues exactly the downloads `Requests` specifies, in URL order |
| Scenarios.ProtocolRelativeExample | main.py:74-75 | `//cdn.example.com/x.png` on `https://site.com/a/` becomes `https://cdn.example.com/x.png` |
| Scenarios.RootRelativeExample | main.py:76-78 | `/img/x.png` on `https://site.com/a/` becomes `https://site.com/img/x.png` |
| Scenarios.UnusualExtensionExample | main.py:87-91 | `.bmp` gives `.jpg` |
| Scenarios.UpperCaseExtensionExample | main.py:87-91 | `.PNG` is kept as `.PNG` |
| Scenarios.QueryStringExample | main.py:82-91 | a query string stays in the extension (`.png?w=1`), which then gives `.jpg` |
| Scenarios.LongExtensionNotAllowed | main.py:88-89 | no extension longer than five characters is allowed |
| Scenarios.LeadingDotExample | main.py:82 | a final component `.png` has no extension, so `.jpg` is used |

## Left out

- Browser automation (`page.goto`, `locator`, `get_attribute`, closing the browser): this is a foreign library. A page is an input. Either navigation failed, or the page holds the two attribute lookups, each present, missing or raising.
- `download_image`: network and file I/O. The model stops at the request, meaning the image URL and the target path. The caller ignores its result.
- Directory creation and every `print`: filesystem and console side effects.
- The async `main` and its hard-coded URL list: asyncio plumbing. The worked examples use their own URLs.
- Which exception class is raised: a failed navigation and a raising lookup both end the URL as `Failed`, as both handlers at the end of the `try` do.
- Extract.ExtractHeroImages: the browser is a function, so the model assumes a URL renders the same way each time it appears.
- Text.Lower: folds only ASCII letters. For membership in the extension list this is exact, because no non-ASCII character lowers to a single letter of `jpegnifwb`.
- `os.path.splitext` and `os.path.join` are not part of this model as Python source. They are modelled after their POSIX behaviour.
