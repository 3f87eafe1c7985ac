/** The URL resolver of the card handler: turns the `src` of the body image it
    picked into an absolute URL, using the parts of the requested URL. */
module Resolver {
  import opened Wrappers
  import opened PhpStrings

  /** What `parse_url` reports for the requested URL; each part may be absent. */
  datatype UrlParts = UrlParts(scheme: Option<Bytes>, host: Option<Bytes>, path: Option<Bytes>)

  /** The scheme, or "http" when absent. */
  function SchemeOf(base: UrlParts): Bytes
  {
    GetOr(base.scheme, "http")
  }

  /** The host, or the empty string when absent. */
  function HostOf(base: UrlParts): Bytes
  {
    GetOr(base.host, "")
  }

  /** The path, or "/" when absent. */
  function PathOf(base: UrlParts): Bytes
  {
    GetOr(base.path, "/")
  }

  /** `scheme://host`, the origin every resolved URL starts with. */
  function Origin(base: UrlParts): Bytes
  {
    SchemeOf(base) + "://" + HostOf(base)
  }

  /** A source is taken as absolute when it starts with "http" or "//";
      this is a plain prefix test, so "httpfoo.jpg" counts too. */
  predicate IsAbsolute(src: Bytes)
  {
    StartsWith(src, "http") || StartsWith(src, "//")
  }

  /** The directory part placed between the origin and a relative source:
      `dirname` of the path followed by '/', or "/" when `dirname` gives ".". */
  function DirectoryPrefix(path: Bytes): (r: Bytes)
    ensures r != [] && r[|r| - 1] == '/'
  {
    var dir := Dirname(path);
    if dir == "." then "/" else dir + "/"
  }

  /** Makes a body image source absolute: an absolute source is kept, a
      source starting with '/' follows the origin, any other follows the
      origin and the directory of the base path. The source always ends
      the result, and every resolved source follows the origin. */
  function ResolveImageSrc(src: Bytes, base: UrlParts): (r: Bytes)
    ensures IsAbsolute(src) ==> r == src
    ensures EndsWith(r, src)
    ensures !IsAbsolute(src) ==> StartsWith(r, Origin(base)) && |r| > |Origin(base)| + |src| - 1
  {
    if IsAbsolute(src) then src
    else
      var scheme := SchemeOf(base);
      var host := HostOf(base);
      if StartsWith(src, "/") then
        scheme + "://" + host + src
      else
        var r := scheme + "://" + host + DirectoryPrefix(PathOf(base)) + src;
        assert r == Origin(base) + DirectoryPrefix(PathOf(base)) + src;
        r
  }

  /** A source rooted at '/' is appended to the origin. */
  lemma RootedSource(src: Bytes, base: UrlParts)
    requires StartsWith(src, "/") && !StartsWith(src, "//")
    ensures ResolveImageSrc(src, base) == Origin(base) + src
  {
    assert !StartsWith(src, "http") by {
      if |src| >= 4 { assert src[..4][0] == '/'; }
    }
  }

  /** Any other relative source is appended to the origin and the directory
      of the base path. */
  lemma RelativeSource(src: Bytes, base: UrlParts)
    requires !IsAbsolute(src) && !StartsWith(src, "/")
    ensures ResolveImageSrc(src, base) == Origin(base) + DirectoryPrefix(PathOf(base)) + src
  {
  }

  /** With no path in the base URL, a relative source lands at the root:
      the default path "/" has directory "/", which gives a doubled slash. */
  lemma RelativeSourceWithoutPath(src: Bytes, base: UrlParts)
    requires !IsAbsolute(src) && !StartsWith(src, "/")
    requires base.path.None?
    ensures ResolveImageSrc(src, base) == Origin(base) + "//" + src
  {
    DirnameOfSlashes(1);
    assert PathOf(base) == Slashes(1);
  }

  /** A relative source next to a file `dir/seg` of the base path lands in
      `dir`, whether or not `dir` starts with '/'. */
  lemma RelativeSourceBesideFile(src: Bytes, base: UrlParts, dir: Bytes, seg: Bytes)
    requires !IsAbsolute(src) && !StartsWith(src, "/")
    requires dir != [] && dir != "." && dir[|dir| - 1] != '/' && IsSegment(seg)
    requires base.path == Some(dir + "/" + seg)
    ensures ResolveImageSrc(src, base) == Origin(base) + dir + "/" + src
  {
    DirnameOfChild(dir, 1, seg, 0);
    assert dir + Slashes(1) + seg + Slashes(0) == dir + "/" + seg;
    RelativeSource(src, base);
  }

  /** A relative source next to a file `/seg` at the root of the base path
      follows the origin after two slashes: `dirname` gives "/", and the
      resolver appends another '/'. */
  lemma RelativeSourceBesideRootFile(src: Bytes, base: UrlParts, seg: Bytes)
    requires !IsAbsolute(src) && !StartsWith(src, "/")
    requires IsSegment(seg)
    requires base.path == Some("/" + seg)
    ensures ResolveImageSrc(src, base) == Origin(base) + "//" + src
  {
    DirnameOfRootChild(1, seg, 0);
    assert Slashes(1) + seg + Slashes(0) == "/" + seg;
    RelativeSource(src, base);
  }

  /** A base path without any slash before its last segment has directory
      ".", which the resolver replaces by "/": a relative source then
      follows the origin after a single slash. */
  lemma RelativeSourceBesideBareName(src: Bytes, base: UrlParts, seg: Bytes, trailing: nat)
    requires !IsAbsolute(src) && !StartsWith(src, "/")
    requires IsSegment(seg)
    requires base.path == Some(seg + Slashes(trailing))
    ensures DirectoryPrefix(seg + Slashes(trailing)) == "/"
    ensures ResolveImageSrc(src, base) == Origin(base) + "/" + src
  {
    DirnameOfBareName(seg, trailing);
    RelativeSource(src, base);
  }

  /** The parts of the base URL `https://example.com/blog/post1`. */
  predicate IsExampleBase(base: UrlParts)
  {
    base == UrlParts(Some("https"), Some("example.com"), Some("/blog/post1"))
  }

  /** With the example base, `img/photo.jpg` resolves to
      `https://example.com/blog/img/photo.jpg`. */
  lemma ExampleRelative(src: Bytes, base: UrlParts)
    requires src == "img/photo.jpg" && IsExampleBase(base)
    ensures ResolveImageSrc(src, base) == "https://example.com/blog/img/photo.jpg"
  {
    assert src[0] == 'i';
    var dir: Bytes, seg: Bytes := "/blog", "post1";
    assert IsSegment(seg);
    assert dir + "/" + seg == "/blog/post1";
    assert Origin(base) == "https://example.com";
    assert Origin(base) + dir + "/" + src == "https://example.com/blog/img/photo.jpg";
    RelativeSourceBesideFile(src, base, dir, seg);
  }

  /** With the example base, `/assets/photo.jpg` resolves to
      `https://example.com/assets/photo.jpg`. */
  lemma ExampleRooted(src: Bytes, base: UrlParts)
    requires src == "/assets/photo.jpg" && IsExampleBase(base)
    ensures ResolveImageSrc(src, base) == "https://example.com/assets/photo.jpg"
  {
    assert src[..1] == "/" && src[1] == 'a';
    RootedSource(src, base);
    assert Origin(base) == "https://example.com";
  }

  /** With the example base, an image already on another host is kept. */
  lemma ExampleAbsolute(src: Bytes, base: UrlParts)
    requires src == "https://cdn.example.com/photo.jpg" && IsExampleBase(base)
    ensures ResolveImageSrc(src, base) == src
  {
    assert src[..4] == "http";
  }

  /** A base path with a single segment has directory "/", and the resolver
      then writes two slashes before the source: `/post` with `img.jpg` gives
      `https://example.com//img.jpg`. */
  lemma ExampleDoubleSlash(src: Bytes, base: UrlParts)
    requires src == "img.jpg"
    requires base == UrlParts(Some("https"), Some("example.com"), Some("/post"))
    ensures ResolveImageSrc(src, base) == "https://example.com//img.jpg"
  {
    assert src[0] == 'i';
    var seg: Bytes := "post";
    assert IsSegment(seg);
    assert "/" + seg == "/post";
    assert Origin(base) == "https://example.com";
    assert Origin(base) + "//" + src == "https://example.com//img.jpg";
    RelativeSourceBesideRootFile(src, base, seg);
  }
}
