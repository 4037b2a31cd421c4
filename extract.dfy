/**
 The `for url in urls` loop of `extract_hero_image_from_urls`: every URL is
 processed in list order, on its own, and the observable effect of the
 run is the sequence of download requests it issues.
 */
module Extract {
  import opened Text
  import opened Sanitize
  import opened HeroImage
  import PosixPath

  /** The outcome of every URL of the run, in list order. */
  function Outcomes(urls: seq<string>, render: string -> Page): (outcomes: seq<Outcome>)
    ensures |outcomes| == |urls|
    ensures forall i :: 0 <= i < |urls| ==> outcomes[i] == Process(urls[i], render(urls[i]))
  {
    seq(|urls|, i requires 0 <= i < |urls| => Process(urls[i], render(urls[i])))
  }

  /** Processing one more URL adds its download, if any, at the end. */
  lemma RequestsExtend(urls: seq<string>, i: nat, render: string -> Page)
    requires i < |urls|
    ensures var outcome := Process(urls[i], render(urls[i]));
      Requests(urls[..i + 1], render) == Requests(urls[..i], render) + if outcome.Fetch? then [outcome.request] else []
  {
    var outcome := Process(urls[i], render(urls[i]));
    assert Outcomes(urls[..i + 1], render) == Outcomes(urls[..i], render) + [outcome];
    DownloadsAppend(Outcomes(urls[..i], render), [outcome]);
    assert Downloads([outcome]) == if outcome.Fetch? then [outcome.request] else [];
  }

  /** The download requests among `outcomes`, in order. */
  function Downloads(outcomes: seq<Outcome>): (requests: seq<Request>)
    ensures |requests| <= |outcomes|
    decreases |outcomes|
  {
    if outcomes == [] then []
    else
      var n := |outcomes| - 1;
      var last := if outcomes[n].Fetch? then [outcomes[n].request] else [];
      Downloads(outcomes[..n]) + last
  }

  /** Downloads of concatenated outcome lists are those of the parts, in order. */
  lemma {:induction false} DownloadsAppend(a: seq<Outcome>, b: seq<Outcome>)
    ensures Downloads(a + b) == Downloads(a) + Downloads(b)
    decreases |b|
  {
    if b == [] {
      assert a + b == a;
    } else {
      var n := |b| - 1;
      assert (a + b)[..|a + b| - 1] == a + b[..n];
      DownloadsAppend(a, b[..n]);
    }
  }

  /** A request appears exactly when some outcome issues it. */
  lemma {:induction false} DownloadsIff(outcomes: seq<Outcome>, r: Request)
    ensures r in Downloads(outcomes) <==> Fetch(r) in outcomes
    decreases |outcomes|
  {
    if outcomes != [] {
      var n := |outcomes| - 1;
      DownloadsIff(outcomes[..n], r);
      assert outcomes == outcomes[..n] + [outcomes[n]];
    }
  }

  /**
   The downloads a run over `urls` issues, in order, when the browser
   renders each URL as `render` says.
   */
  function Requests(urls: seq<string>, render: string -> Page): (requests: seq<Request>)
    ensures |requests| <= |urls|
  {
    Downloads(Outcomes(urls, render))
  }

  /** Every request is the download that processing one of the URLs issues, and each such download is requested. */
  lemma RequestsComeFromUrls(urls: seq<string>, render: string -> Page, r: Request)
    ensures r in Requests(urls, render) <==> exists i :: 0 <= i < |urls| && Process(urls[i], render(urls[i])) == Fetch(r)
  {
    var outcomes := Outcomes(urls, render);
    DownloadsIff(outcomes, r);
    if Fetch(r) in outcomes {
      var i :| 0 <= i < |outcomes| && outcomes[i] == Fetch(r);
    }
  }

  /** Every request saves directly under `images/`, with a stem from its page URL and an allowed extension. */
  lemma RequestSavesInImagesDir(urls: seq<string>, render: string -> Page, r: Request)
    requires r in Requests(urls, render)
    ensures StartsWith(r.path, IMAGES_DIR + "/")
    ensures forall k :: |IMAGES_DIR| < k < |r.path| ==> r.path[k] != '/'
    ensures exists i :: 0 <= i < |urls| && StartsWith(r.path, IMAGES_DIR + "/" + SanitizeFilename(urls[i]))
    ensures exists e :: e in VALID_EXTENSIONS && EndsWith(Lower(r.path), e)
  {
    RequestsComeFromUrls(urls, render, r);
    var i :| 0 <= i < |urls| && Process(urls[i], render(urls[i])) == Fetch(r);
    PathOfFetch(urls[i], render(urls[i]), r);
  }

  /** On a loaded page, `r` downloads the resolved form of the chosen source. */
  predicate FetchesResolvedSource(url: string, page: Page, r: Request) {
    && page.Loaded?
    && SelectSource(url, page.ogImage, page.figureImg).Chosen?
    && r.imageUrl == Resolve(SelectSource(url, page.ogImage, page.figureImg).src, url)
  }

  /** Every request downloads the resolved form of the source chosen on one of the pages. */
  lemma RequestFetchesResolvedSource(urls: seq<string>, render: string -> Page, r: Request)
    requires r in Requests(urls, render)
    ensures exists i :: 0 <= i < |urls| && FetchesResolvedSource(urls[i], render(urls[i]), r)
  {
    RequestsComeFromUrls(urls, render, r);
    var i :| 0 <= i < |urls| && Process(urls[i], render(urls[i])) == Fetch(r);
  }

  lemma PathOfFetch(url: string, page: Page, r: Request)
    requires Process(url, page) == Fetch(r)
    ensures StartsWith(r.path, IMAGES_DIR + "/")
    ensures forall k :: |IMAGES_DIR| < k < |r.path| ==> r.path[k] != '/'
    ensures StartsWith(r.path, IMAGES_DIR + "/" + SanitizeFilename(url))
    ensures exists e :: e in VALID_EXTENSIONS && EndsWith(Lower(r.path), e)
  {
    var src := SelectSource(url, page.ogImage, page.figureImg).src;
    var stem := SanitizeFilename(url);
    var ext := ChooseExtension(src);
    assert r.path == TargetPath(url, r.imageUrl);
    PathShape(r.path, stem, ext);
  }

  lemma PathShape(path: string, stem: string, ext: string)
    requires path == IMAGES_DIR + "/" + stem + ext
    requires Lower(ext) in VALID_EXTENSIONS
    ensures StartsWith(path, IMAGES_DIR + "/")
    ensures StartsWith(path, IMAGES_DIR + "/" + stem)
    ensures exists e :: e in VALID_EXTENSIONS && EndsWith(Lower(path), e)
  {
    var prefix := IMAGES_DIR + "/" + stem;
    assert path[..|prefix|] == prefix;
    assert path[..|IMAGES_DIR + "/"|] == IMAGES_DIR + "/";
    assert Lower(path)[|path| - |ext|..] == Lower(ext);
  }

  /**
   The body of the `try` block for one URL, step by step: `image_src` starts
   out as `None` and is reassigned by the lookups and by resolution, and
   `file_ext` by the default, the dot and the allow-list check.
   */
  method ProcessUrl(url: string, page: Page) returns (outcome: Outcome)
    ensures outcome == Process(url, page)
  {
    if page.NavigationFailed? {
      return Failed;
    }
    var imageSrc := Absent;
    if IsVideoPage(url) {
      imageSrc := page.ogImage;
      if imageSrc.Raises? {
        return Failed;
      }
    }
    if !Truthy(imageSrc) {
      imageSrc := page.figureImg;
      if imageSrc.Raises? {
        return Failed;
      }
    }
    if !Truthy(imageSrc) {
      return NoImage;
    }
    var src := imageSrc.value;
    if StartsWith(src, "/") {
      if StartsWith(src, "//") {
        src := Split(url, ':')[0] + ":" + src;
      } else {
        var baseUrl := Join(Take(Split(url, '/'), 3), '/');
        src := baseUrl + src;
      }
    }
    var filenameBase := SanitizeFilename(url);
    var fileExt := PosixPath.SplitExt(src).1;
    if fileExt == [] {
      fileExt := DEFAULT_EXTENSION;
    }
    if !StartsWith(fileExt, ".") {
      fileExt := "." + fileExt;
    }
    if Lower(fileExt) !in VALID_EXTENSIONS {
      fileExt := DEFAULT_EXTENSION;
    }
    var imageFilename := filenameBase + fileExt;
    var imageFilepath := PosixPath.Join(IMAGES_DIR, imageFilename);
    outcome := Fetch(Request(src, imageFilepath));
  }

  /**
   The loop: each iteration starts from no image source, processes one URL
   and issues at most one download; an exception for one URL does not stop
   the run.
   */
  method ExtractHeroImages(urls: seq<string>, render: string -> Page) returns (requests: seq<Request>)
    ensures requests == Requests(urls, render)
  {
    requests := [];
    var i := 0;
    while i < |urls|
      invariant 0 <= i <= |urls|
      invariant requests == Requests(urls[..i], render)
    {
      var url := urls[i];
      var outcome := ProcessUrl(url, render(url));
      RequestsExtend(urls, i, render);
      match outcome {
        case Fetch(request) =>
          requests := requests + [request];
        case NoImage =>
        case Failed =>
      }
      i := i + 1;
    }
    assert urls[..i] == urls;
  }
}
