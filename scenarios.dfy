/**
 Concrete inputs worked through the model: the two relative-source shapes
 and the extension rules.
 */
module Scenarios {
  import opened Text
  import opened HeroImage
  import PosixPath

  /** A protocol-relative source takes the page's scheme. */
  lemma ProtocolRelativeExample(src: string, pageUrl: string)
    requires src == "//cdn.example.com/x.png" && pageUrl == "https://site.com/a/"
    ensures Resolve(src, pageUrl) == "https://cdn.example.com/x.png"
  {
    assert pageUrl == "https" + ":" + "//site.com/a/";
    assert src[..2] == "//";
    ResolveProtocolRelativeUrl(src, "https", "//site.com/a/");
    ProtocolRelativeText(src);
  }

  lemma ProtocolRelativeText(src: string)
    requires src == "//cdn.example.com/x.png"
    ensures "https" + ":" + src == "https://cdn.example.com/x.png"
  {
  }

  /** A root-relative source takes the page's scheme and host. */
  lemma RootRelativeExample(src: string, pageUrl: string)
    requires src == "/img/x.png" && pageUrl == "https://site.com/a/"
    ensures Resolve(src, pageUrl) == "https://site.com/img/x.png"
  {
    assert pageUrl == "https:" + "//" + "site.com" + "/a/";
    RootRelativeShape(src);
    ResolveRootRelativeUrl(src, "https:", "site.com", "/a/");
    RootRelativeText(src);
  }

  lemma RootRelativeShape(src: string)
    requires src == "/img/x.png"
    ensures StartsWith(src, "/") && !StartsWith(src, "//")
  {
    assert src[..1] == "/";
    assert src[1] == 'i';
  }

  lemma RootRelativeText(src: string)
    requires src == "/img/x.png"
    ensures "https:" + "//" + "site.com" + src == "https://site.com/img/x.png"
  {
  }

  /** An unusual extension is replaced by `.jpg`. */
  lemma UnusualExtensionExample(imageUrl: string)
    requires imageUrl == "https://cdn.example.com/x.bmp"
    ensures ChooseExtension(imageUrl) == ".jpg"
  {
    PosixPath.SplitExtOfShape("https://cdn.example.com/x", ".bmp", 24);
    assert imageUrl == "https://cdn.example.com/x" + ".bmp";
    assert Lower(".bmp") == ".bmp";
  }

  /** An allowed extension keeps its case. */
  lemma UpperCaseExtensionExample(imageUrl: string)
    requires imageUrl == "https://cdn.example.com/x.PNG"
    ensures ChooseExtension(imageUrl) == ".PNG"
  {
    PosixPath.SplitExtOfShape("https://cdn.example.com/x", ".PNG", 24);
    assert imageUrl == "https://cdn.example.com/x" + ".PNG";
    assert Lower(".PNG") == ".png";
  }

  /** A query string stays inside the extension, which then is not allowed. */
  lemma QueryStringExample(imageUrl: string)
    requires imageUrl == "https://cdn.example.com/x.png?w=1"
    ensures PosixPath.SplitExt(imageUrl).1 == ".png?w=1"
    ensures ChooseExtension(imageUrl) == ".jpg"
  {
    var ext := ".png?w=1";
    assert imageUrl == "https://cdn.example.com/x" + ext;
    PosixPath.SplitExtOfShape("https://cdn.example.com/x", ext, 24);
    LongExtensionNotAllowed(ext);
  }

  /** No allowed extension is longer than five characters. */
  lemma LongExtensionNotAllowed(ext: string)
    requires |ext| > 5
    ensures Lower(ext) !in VALID_EXTENSIONS
  {
    var lowered := Lower(ext);
    assert forall e | e in VALID_EXTENSIONS :: |e| <= 5;
    assert |lowered| > 5;
  }

  /** A final component made of a leading dot and a name has no extension. */
  lemma LeadingDotExample(imageUrl: string)
    requires imageUrl == "https://cdn.example.com/.png"
    ensures PosixPath.SplitExt(imageUrl).1 == ""
    ensures ChooseExtension(imageUrl) == ".jpg"
  {
  }
}
