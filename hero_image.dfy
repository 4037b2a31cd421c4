/**
 What `extract_hero_image_from_urls` decides for one page URL: which
 scraped attribute gives the image source, how a relative source is made
 absolute, which extension the saved file gets and under which path it is
 saved. The browser is reduced to the two attribute lookups it answers.
 */
module HeroImage {
  import opened Text
  import PosixPath
  import opened Sanitize

  const IMAGES_DIR := "images"
  const VIDEO_MARKER := "/videos/"
  const DEFAULT_EXTENSION := ".jpg"
  const VALID_EXTENSIONS := [".jpg", ".jpeg", ".png", ".gif", ".webp"]

  /**
   What `get_attribute` on the first element matching a selector gives:
   the attribute's text, `None` when the attribute is missing, or an
   exception (a locator timeout when no element matches, for instance).
   */
  datatype Attr = Present(value: string) | Absent | Raises

  /** A page as the browser shows it: the two lookups, or a failed `goto`. */
  datatype Page = NavigationFailed | Loaded(ogImage: Attr, figureImg: Attr)

  /** Result of the two-step source heuristic. */
  datatype Selection = Chosen(src: string) | NotFound | LookupRaised

  /** One `download_image(session, imageUrl, path)` call. */
  datatype Request = Request(imageUrl: string, path: string)

  /**
   What happens for one URL: a download is issued, no source was found,
   or an exception ended the URL's processing.
   */
  datatype Outcome = Fetch(request: Request) | NoImage | Failed

  /**
   Python truthiness of the `image_src` variable: `None` and the empty
   string are false, every other string is true.
   */
  predicate Truthy(a: Attr)
    ensures a == Absent || a == Present([]) ==> !Truthy(a)
    ensures a.Present? && |a.value| > 0 ==> Truthy(a)
  {
    a.Present? && a.value != []
  }

  /** `"/videos/" in url`. */
  predicate IsVideoPage(url: string)
    ensures IsVideoPage(url) <==> exists i :: OccursAt(url, VIDEO_MARKER, i)
  {
    ContainsIffOccurs(url, VIDEO_MARKER);
    Contains(url, VIDEO_MARKER)
  }

  /**
   The source heuristic: on a video page the `og:image` meta content comes
   first; otherwise, or when it is empty or missing, the `src` of the first
   `figure img`. An empty string counts as missing. An exception in a lookup
   that runs ends the URL.
   */
  function SelectSource(url: string, ogImage: Attr, figureImg: Attr): (sel: Selection)
    ensures sel.Chosen? ==> sel.src != []
    ensures sel.Chosen? ==> (IsVideoPage(url) && ogImage == Present(sel.src)) || figureImg == Present(sel.src)
    ensures IsVideoPage(url) && Truthy(ogImage) ==> sel == Chosen(ogImage.value)
    ensures (!IsVideoPage(url) || (!Truthy(ogImage) && !ogImage.Raises?)) ==>
      sel == (if figureImg.Raises? then LookupRaised else if Truthy(figureImg) then Chosen(figureImg.value) else NotFound)
    ensures sel == LookupRaised <==> (IsVideoPage(url) && ogImage.Raises?) || (!(IsVideoPage(url) && Truthy(ogImage)) && figureImg.Raises?)
  {
    var first := if IsVideoPage(url) then ogImage else Absent;
    if first.Raises? then LookupRaised
    else if Truthy(first) then Chosen(first.value)
    else if figureImg.Raises? then LookupRaised
    else if Truthy(figureImg) then Chosen(figureImg.value)
    else NotFound
  }

  /** On a page that is not a video page the `og:image` lookup never runs. */
  lemma NonVideoIgnoresOgImage(url: string, og1: Attr, og2: Attr, figureImg: Attr)
    requires !IsVideoPage(url)
    ensures SelectSource(url, og1, figureImg) == SelectSource(url, og2, figureImg)
  {
  }

  /** On a video page with `og:image` content, the `figure img` lookup never runs. */
  lemma VideoOgImageShadowsFigure(url: string, ogImage: Attr, fig1: Attr, fig2: Attr)
    requires IsVideoPage(url) && Truthy(ogImage)
    ensures SelectSource(url, ogImage, fig1) == SelectSource(url, ogImage, fig2)
  {
  }

  /**
   Making the source absolute. A source that does not start with `/` stays
   as it is. One starting with `//` gets the page URL's text before its
   first `:` and a `:`. Any other source starting with `/` gets the first
   three `/`-separated fields of the page URL, joined by `/`.
   */
  function Resolve(src: string, pageUrl: string): (abs: string)
    ensures !StartsWith(src, "/") ==> abs == src
    ensures StartsWith(src, "//") ==>
      EndsWith(abs, ":" + src) && CutBefore(pageUrl, abs[..|abs| - |src| - 1], ':', 1)
    ensures StartsWith(src, "/") && !StartsWith(src, "//") ==>
      EndsWith(abs, src) && CutBefore(pageUrl, abs[..|abs| - |src|], '/', 3)
  {
    if StartsWith(src, "/") then
      if StartsWith(src, "//") then
        var scheme := Split(pageUrl, ':')[0];
        ProtocolRelativeCut(pageUrl, src);
        scheme + ":" + src
      else
        var baseUrl := Join(Take(Split(pageUrl, '/'), 3), '/');
        RootRelativeCut(pageUrl, src);
        baseUrl + src
    else src
  }

  lemma ProtocolRelativeCut(pageUrl: string, src: string)
    ensures var abs := Split(pageUrl, ':')[0] + ":" + src;
      EndsWith(abs, ":" + src) && CutBefore(pageUrl, abs[..|abs| - |src| - 1], ':', 1)
  {
    var scheme := Split(pageUrl, ':')[0];
    FirstFieldCut(pageUrl, ':');
    var abs := scheme + ":" + src;
    assert abs[..|abs| - |src| - 1] == scheme;
    assert abs[|abs| - |":" + src|..] == ":" + src;
  }

  lemma RootRelativeCut(pageUrl: string, src: string)
    ensures var abs := Join(Take(Split(pageUrl, '/'), 3), '/') + src;
      EndsWith(abs, src) && CutBefore(pageUrl, abs[..|abs| - |src|], '/', 3)
  {
    var baseUrl := Join(Take(Split(pageUrl, '/'), 3), '/');
    JoinTakeSplit(pageUrl, '/', 3);
    var abs := baseUrl + src;
    assert abs[..|abs| - |src|] == baseUrl;
    assert abs[|abs| - |src|..] == src;
  }

  /**
   With `scheme` the page URL's text before its first `:`, a
   protocol-relative source resolves to `scheme + ":" + src`.
   */
  lemma ResolveProtocolRelative(src: string, pageUrl: string, scheme: string)
    requires StartsWith(src, "//") && CutBefore(pageUrl, scheme, ':', 1)
    ensures Resolve(src, pageUrl) == scheme + ":" + src
  {
    var abs := Resolve(src, pageUrl);
    CutBeforeUnique(pageUrl, abs[..|abs| - |src| - 1], scheme, ':', 1);
    assert abs == abs[..|abs| - |src| - 1] + abs[|abs| - |":" + src|..];
  }

  /**
   With `baseUrl` the page URL up to its third `/`, a root-relative source
   resolves to `baseUrl + src`.
   */
  lemma ResolveRootRelative(src: string, pageUrl: string, baseUrl: string)
    requires StartsWith(src, "/") && !StartsWith(src, "//") && CutBefore(pageUrl, baseUrl, '/', 3)
    ensures Resolve(src, pageUrl) == baseUrl + src
  {
    var abs := Resolve(src, pageUrl);
    CutBeforeUnique(pageUrl, abs[..|abs| - |src|], baseUrl, '/', 3);
    assert abs == abs[..|abs| - |src|] + abs[|abs| - |src|..];
  }

  /**
   On a page URL of the form `scheme:rest` with no `:` in `scheme`, a
   protocol-relative source becomes `scheme:src`.
   */
  lemma ResolveProtocolRelativeUrl(src: string, scheme: string, rest: string)
    requires StartsWith(src, "//") && ':' !in scheme
    ensures Resolve(src, scheme + ":" + rest) == scheme + ":" + src
  {
    var pageUrl := scheme + ":" + rest;
    assert pageUrl[..|scheme|] == scheme;
    assert pageUrl[|scheme|] == ':';
    assert ':' !in multiset(scheme);
    ResolveProtocolRelative(src, pageUrl, scheme);
  }

  /**
   On a page URL of the form `scheme//host` followed by an empty path or
   one starting with `/`, with no `/` in `scheme` or `host`, a root-relative
   source becomes `scheme//host` followed by the source.
   */
  lemma ResolveRootRelativeUrl(src: string, scheme: string, host: string, path: string)
    requires StartsWith(src, "/") && !StartsWith(src, "//")
    requires '/' !in scheme && '/' !in host
    requires path == [] || path[0] == '/'
    ensures Resolve(src, scheme + "//" + host + path) == scheme + "//" + host + src
  {
    var baseUrl := scheme + "//" + host;
    var pageUrl := baseUrl + path;
    assert pageUrl[..|baseUrl|] == baseUrl;
    assert multiset(baseUrl) == multiset(scheme) + multiset("//") + multiset(host);
    assert '/' !in multiset(scheme) && '/' !in multiset(host);
    assert multiset("//")['/'] == 2 by {
      assert "//" == ['/'] + ['/'];
    }
    if path != [] {
      assert pageUrl[|baseUrl|] == '/';
    } else {
      assert pageUrl == baseUrl;
    }
    ResolveRootRelative(src, pageUrl, baseUrl);
  }

  /** Every resolved source ends with the scraped source. */
  lemma ResolveKeepsSource(src: string, pageUrl: string)
    ensures EndsWith(Resolve(src, pageUrl), src)
  {
    var abs := Resolve(src, pageUrl);
    if StartsWith(src, "//") {
      assert abs[|abs| - |src|..] == (":" + src)[1..];
    }
  }

  /**
   `os.path.splitext(image_src)[1] or ".jpg"`: it always starts with a dot,
   so the step that would put a dot in front never fires.
   */
  function ExtensionOrDefault(imageUrl: string): (ext: string)
    ensures StartsWith(ext, ".")
  {
    var ext := PosixPath.SplitExt(imageUrl).1;
    if ext == [] then DEFAULT_EXTENSION else ext
  }

  /**
   The extension of the saved file: the one `splitext` finds, in its own
   case, when its lower-case form is an allowed image extension, and
   `.jpg` in every other case.
   */
  function ChooseExtension(imageUrl: string): (ext: string)
    ensures Lower(ext) in VALID_EXTENSIONS
    ensures '/' !in ext
    ensures ext == DEFAULT_EXTENSION || ext == PosixPath.SplitExt(imageUrl).1
    ensures Lower(PosixPath.SplitExt(imageUrl).1) in VALID_EXTENSIONS ==> ext == PosixPath.SplitExt(imageUrl).1
  {
    var ext := ExtensionOrDefault(imageUrl);
    var dotted := if StartsWith(ext, ".") then ext else "." + ext;
    if Lower(dotted) !in VALID_EXTENSIONS then
      DefaultIsValid();
      DEFAULT_EXTENSION
    else
      ValidHasNoSeparator(dotted);
      dotted
  }

  lemma DefaultIsValid()
    ensures Lower(DEFAULT_EXTENSION) in VALID_EXTENSIONS && '/' !in DEFAULT_EXTENSION
  {
    assert Lower(DEFAULT_EXTENSION) == DEFAULT_EXTENSION;
  }

  lemma ValidHasNoSeparator(ext: string)
    requires Lower(ext) in VALID_EXTENSIONS
    ensures '/' !in ext
  {
    var lowered := Lower(ext);
    NoSeparatorInValid(lowered);
    forall i | 0 <= i < |ext| ensures ext[i] != '/' {
      assert lowered[i] == LowerChar(ext[i]);
      assert lowered[i] in lowered;
    }
  }

  lemma NoSeparatorInValid(e: string)
    requires e in VALID_EXTENSIONS
    ensures '/' !in e
  {
    assert e == ".jpg" || e == ".jpeg" || e == ".png" || e == ".gif" || e == ".webp";
  }

  /**
   The saved file's extension depends only on the scraped source: making
   it absolute never changes it.
   */
  lemma ResolveKeepsExtension(src: string, pageUrl: string)
    ensures ChooseExtension(Resolve(src, pageUrl)) == ChooseExtension(src)
  {
    if StartsWith(src, "/") {
      var abs := Resolve(src, pageUrl);
      ResolveKeepsSource(src, pageUrl);
      var prefix := abs[..|abs| - |src|];
      assert abs == prefix + src;
      ChooseExtensionIgnoresPrefix(prefix, src);
    }
  }

  lemma ChooseExtensionIgnoresPrefix(prefix: string, src: string)
    requires StartsWith(src, "/")
    ensures ChooseExtension(prefix + src) == ChooseExtension(src)
  {
    PosixPath.SplitExtIgnoresPrefix(prefix, src);
  }

  /**
   `os.path.join(IMAGES_DIR, f"{sanitize_filename(url)}{file_ext}")`: the
   file lies directly inside `images/`, its stem comes from the page URL
   and its extension from the image URL.
   */
  function TargetPath(pageUrl: string, imageUrl: string): (path: string)
    ensures path == IMAGES_DIR + "/" + SanitizeFilename(pageUrl) + ChooseExtension(imageUrl)
    ensures forall i :: |IMAGES_DIR| < i < |path| ==> path[i] != '/'
  {
    var stem := SanitizeFilename(pageUrl);
    var ext := ChooseExtension(imageUrl);
    FileNameHasNoSeparator(stem, ext);
    PosixPath.Join(IMAGES_DIR, stem + ext)
  }

  lemma FileNameHasNoSeparator(stem: string, ext: string)
    requires forall i :: 0 <= i < |stem| ==> Allowed(stem[i])
    requires '/' !in ext && StartsWith(ext, ".")
    ensures PosixPath.Join(IMAGES_DIR, stem + ext) == IMAGES_DIR + "/" + stem + ext
    ensures forall i :: 0 <= i < |stem + ext| ==> (stem + ext)[i] != '/'
  {
    var fileName := stem + ext;
    forall i | 0 <= i < |fileName| ensures fileName[i] != '/' {
      if i >= |stem| {
        assert fileName[i] == ext[i - |stem|];
      }
    }
    assert !StartsWith(fileName, "/") by {
      assert fileName[0] != '/';
    }
    assert !EndsWith(IMAGES_DIR, "/") by {
      assert IMAGES_DIR[|IMAGES_DIR| - 1] == 's';
    }
  }

  /** The whole body of the per-URL `try` block. */
  function Process(pageUrl: string, page: Page): (outcome: Outcome)
    ensures outcome.Fetch? <==> page.Loaded? && SelectSource(pageUrl, page.ogImage, page.figureImg).Chosen?
    ensures outcome == NoImage <==> page.Loaded? && SelectSource(pageUrl, page.ogImage, page.figureImg) == NotFound
    ensures outcome.Fetch? ==>
      var src := SelectSource(pageUrl, page.ogImage, page.figureImg).src;
      && outcome.request.imageUrl == Resolve(src, pageUrl)
      && EndsWith(outcome.request.imageUrl, src)
      && outcome.request.path == IMAGES_DIR + "/" + SanitizeFilename(pageUrl) + ChooseExtension(src)
  {
    match page
    case NavigationFailed => Failed
    case Loaded(ogImage, figureImg) =>
      match SelectSource(pageUrl, ogImage, figureImg)
      case LookupRaised => Failed
      case NotFound => NoImage
      case Chosen(src) =>
        var imageUrl := Resolve(src, pageUrl);
        ResolveKeepsSource(src, pageUrl);
        ResolveKeepsExtension(src, pageUrl);
        Fetch(Request(imageUrl, TargetPath(pageUrl, imageUrl)))
  }
}
