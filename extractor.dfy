/** The metadata extractor of the card handler: from what the parsed page
    offers, the headline, the card image and the website name, each by an
    ordered chain of fallbacks. */
module Extractor {
  import opened Wrappers
  import opened PhpStrings
  import opened Resolver

  /** An `<img>` element under `<body>`, with the attributes the handler reads. */
  datatype Image = Image(width: Option<Bytes>, height: Option<Bytes>, className: Option<Bytes>, src: Option<Bytes>)

  /** What the queries over the parsed page find: the `content` of the first
      `og:title`, `og:image` and `og:site_name` meta tag, the text of the first
      `<title>`, and the `<img>` elements under `<body>` in document order. */
  datatype Document = Document(
    ogTitle: Option<Bytes>,
    ogImage: Option<Bytes>,
    ogSiteName: Option<Bytes>,
    title: Option<Bytes>,
    bodyImages: seq<Image>)

  const NoHeadline: Bytes := "No Headline Found"
  /** One URL, "https://via.placeholder.com/600x400?text=No+Image+Available",
      written as two literals: the verifier shows each shorter literal to be
      a byte string, which it does not manage for the whole. */
  const PlaceholderImage: Bytes := "https://via.placeholder.com/" + "600x400?text=No+Image+Available"
  const UnknownWebsite: Bytes := "Unknown Website"

  /** XPath `not(contains(@attr, pat))`: a missing attribute has the empty
      string value, which contains no non-empty pattern. */
  predicate LacksSubstring(attr: Option<Bytes>, pat: Bytes)
  {
    match attr
    case None => !Contains([], pat)
    case Some(v) => !Contains(v, pat)
  }

  /** The icon filter: neither width nor height mentions "32", and the class
      does not mention "icon". */
  predicate Qualifies(img: Image)
  {
    LacksSubstring(img.width, "32") && LacksSubstring(img.height, "32") && LacksSubstring(img.className, "icon")
  }

  /** The position of the first image that passes the icon filter. */
  function FirstQualifying(images: seq<Image>): (r: Option<nat>)
    ensures r.Some? ==> r.value < |images| && Qualifies(images[r.value])
                        && forall j :: 0 <= j < r.value ==> !Qualifies(images[j])
    ensures r.None? ==> forall j :: 0 <= j < |images| ==> !Qualifies(images[j])
  {
    if images == [] then None
    else if Qualifies(images[0]) then Some(0)
    else
      match FirstQualifying(images[1..])
      case None => None
      case Some(k) => Some(k + 1)
  }

  /** An image that passes the filter with none passing before it is the one
      found. */
  lemma FirstQualifyingUnique(images: seq<Image>, k: nat)
    requires k < |images| && Qualifies(images[k])
    requires forall j :: 0 <= j < k ==> !Qualifies(images[j])
    ensures FirstQualifying(images) == Some(k)
  {
    var r := FirstQualifying(images);
    assert r.Some? by { assert Qualifies(images[k]); }
  }

  /** The trimmed value, if there is one. */
  function TrimmedOpt(o: Option<Bytes>): (r: Option<Bytes>)
    ensures r.Some? <==> o.Some?
    ensures o.Some? ==> r.value == Trim(o.value)
  {
    match o
    case None => None
    case Some(v) => Some(Trim(v))
  }

  /** The first candidate that is present, else `default`: one field's
      fallback chain, tried in order. */
  function Pick(candidates: seq<Option<Bytes>>, default: Bytes): (r: Bytes)
    ensures (forall i :: 0 <= i < |candidates| ==> candidates[i].None?) ==> r == default
    ensures forall i :: (0 <= i < |candidates| && candidates[i].Some?
                         && (forall j :: 0 <= j < i ==> candidates[j].None?)) ==> r == candidates[i].value
  {
    if candidates == [] then default
    else if candidates[0].Some? then candidates[0].value
    else Pick(candidates[1..], default)
  }

  /** A chain of two: the first if present, else the second if present, else
      the default. */
  lemma PickOfTwo(first: Option<Bytes>, second: Option<Bytes>, default: Bytes)
    ensures Pick([first, second], default) == GetOr(first, GetOr(second, default))
  {
    assert [first, second][1..] == [second];
    assert [second][1..] == [];
  }

  /** The body image: the trimmed `src` of the first image passing the icon
      filter, made absolute; none when no image passes or it has no `src`. */
  function BodyImage(doc: Document, base: UrlParts): Option<Bytes>
  {
    match FirstQualifying(doc.bodyImages)
    case None => None
    case Some(k) =>
      match doc.bodyImages[k].src
      case None => None
      case Some(src) => Some(ResolveImageSrc(Trim(src), base))
  }

  /** The headline chain: `<title>` (looked at only without `og:image`), then
      `og:title`, then the sentinel. */
  function HeadlineOf(doc: Document): Bytes
  {
    Pick([if doc.ogImage.None? then TrimmedOpt(doc.title) else None, TrimmedOpt(doc.ogTitle)], NoHeadline)
  }

  /** The image chain: `og:image` as it is, then the body image, then the
      placeholder. */
  function CardImageOf(doc: Document, base: UrlParts): Bytes
  {
    Pick([TrimmedOpt(doc.ogImage), BodyImage(doc, base)], PlaceholderImage)
  }

  /** The website-name chain: `og:site_name`, then the host of the requested
      URL, then "Unknown Website". */
  function WebsiteNameOf(doc: Document, base: UrlParts): Bytes
  {
    Pick([TrimmedOpt(doc.ogSiteName), base.host], UnknownWebsite)
  }

  /** The extraction step by step, as the handler does it: defaults first,
      then each query overwrites what it finds. */
  method ExtractCard(doc: Document, base: UrlParts) returns (headline: Bytes, cardImage: Bytes, websiteName: Bytes)
    ensures headline == HeadlineOf(doc)
    ensures cardImage == CardImageOf(doc, base)
    ensures websiteName == WebsiteNameOf(doc, base)
  {
    PickOfTwo(if doc.ogImage.None? then TrimmedOpt(doc.title) else None, TrimmedOpt(doc.ogTitle), NoHeadline);
    PickOfTwo(TrimmedOpt(doc.ogImage), BodyImage(doc, base), PlaceholderImage);
    PickOfTwo(TrimmedOpt(doc.ogSiteName), base.host, UnknownWebsite);
    headline := NoHeadline;
    cardImage := PlaceholderImage;
    websiteName := GetOr(base.host, UnknownWebsite);

    if doc.ogTitle.Some? {
      headline := Trim(doc.ogTitle.value);
    }
    if doc.ogImage.Some? {
      cardImage := Trim(doc.ogImage.value);
    } else {
      if doc.title.Some? {
        headline := Trim(doc.title.value);
      }
      var first := FirstQualifying(doc.bodyImages);
      if first.Some? && doc.bodyImages[first.value].src.Some? {
        var src := Trim(doc.bodyImages[first.value].src.value);
        cardImage := ResolveImageSrc(src, base);
      }
    }

    if doc.ogSiteName.Some? {
      websiteName := Trim(doc.ogSiteName.value);
    } else {
      websiteName := GetOr(base.host, UnknownWebsite);
    }
  }

  // ---------------------------------------------------------------------------
  // Properties of the fallback chains

  /** With `og:image` present, the headline is the trimmed `og:title` or the
      sentinel, and `<title>` is not looked at. */
  lemma HeadlineWithOgImage(doc: Document)
    requires doc.ogImage.Some?
    ensures HeadlineOf(doc) == GetOr(TrimmedOpt(doc.ogTitle), NoHeadline)
    ensures forall t :: HeadlineOf(doc.(title := t)) == HeadlineOf(doc)
  {
    forall t ensures HeadlineOf(doc.(title := t)) == GetOr(TrimmedOpt(doc.ogTitle), NoHeadline) {
      var d := doc.(title := t);
      PickOfTwo(if d.ogImage.None? then TrimmedOpt(d.title) else None, TrimmedOpt(d.ogTitle), NoHeadline);
    }
    PickOfTwo(if doc.ogImage.None? then TrimmedOpt(doc.title) else None, TrimmedOpt(doc.ogTitle), NoHeadline);
  }

  /** Without `og:image`, a `<title>` overrides `og:title`. */
  lemma HeadlineFromTitle(doc: Document)
    requires doc.ogImage.None? && doc.title.Some?
    ensures HeadlineOf(doc) == Trim(doc.title.value)
  {
    PickOfTwo(if doc.ogImage.None? then TrimmedOpt(doc.title) else None, TrimmedOpt(doc.ogTitle), NoHeadline);
  }

  /** With neither `og:image` nor `<title>`, the headline is the trimmed
      `og:title` or the sentinel. */
  lemma HeadlineWithoutTitle(doc: Document)
    requires doc.ogImage.None? && doc.title.None?
    ensures HeadlineOf(doc) == GetOr(TrimmedOpt(doc.ogTitle), NoHeadline)
  {
    PickOfTwo(if doc.ogImage.None? then TrimmedOpt(doc.title) else None, TrimmedOpt(doc.ogTitle), NoHeadline);
  }

  /** A present `og:image` is the card image, trimmed and not resolved, even
      when empty; the body images are then never consulted. */
  lemma OgImageWins(doc: Document, base: UrlParts)
    requires doc.ogImage.Some?
    ensures CardImageOf(doc, base) == Trim(doc.ogImage.value)
    ensures forall imgs :: CardImageOf(doc.(bodyImages := imgs), base) == CardImageOf(doc, base)
  {
    forall imgs ensures CardImageOf(doc.(bodyImages := imgs), base) == Trim(doc.ogImage.value) {
      var d := doc.(bodyImages := imgs);
      PickOfTwo(TrimmedOpt(d.ogImage), BodyImage(d, base), PlaceholderImage);
    }
    PickOfTwo(TrimmedOpt(doc.ogImage), BodyImage(doc, base), PlaceholderImage);
  }

  /** Without `og:image`, the card image is the resolved `src` of the first
      image passing the icon filter when it has one, else the placeholder. */
  lemma CardImageFromBody(doc: Document, base: UrlParts)
    requires doc.ogImage.None?
    ensures FirstQualifying(doc.bodyImages).None? ==> CardImageOf(doc, base) == PlaceholderImage
    ensures FirstQualifying(doc.bodyImages).Some? ==>
      var img := doc.bodyImages[FirstQualifying(doc.bodyImages).value];
      CardImageOf(doc, base) == if img.src.Some? then ResolveImageSrc(Trim(img.src.value), base) else PlaceholderImage
  {
    PickOfTwo(TrimmedOpt(doc.ogImage), BodyImage(doc, base), PlaceholderImage);
  }

  /** The card image chosen from the body ends with that image's trimmed
      `src`, and is that `src` itself when it is absolute. */
  lemma BodyImageEndsWithSrc(doc: Document, base: UrlParts, k: nat)
    requires doc.ogImage.None?
    requires k < |doc.bodyImages| && Qualifies(doc.bodyImages[k])
    requires forall j :: 0 <= j < k ==> !Qualifies(doc.bodyImages[j])
    requires doc.bodyImages[k].src.Some?
    ensures EndsWith(CardImageOf(doc, base), Trim(doc.bodyImages[k].src.value))
    ensures IsAbsolute(Trim(doc.bodyImages[k].src.value)) ==> CardImageOf(doc, base) == Trim(doc.bodyImages[k].src.value)
  {
    FirstQualifyingUnique(doc.bodyImages, k);
    PickOfTwo(TrimmedOpt(doc.ogImage), BodyImage(doc, base), PlaceholderImage);
  }

  /** The website name is the trimmed `og:site_name`, else the host, else
      "Unknown Website", whatever the headline and image chains did. */
  lemma WebsiteNameChain(doc: Document, base: UrlParts)
    ensures doc.ogSiteName.Some? ==> WebsiteNameOf(doc, base) == Trim(doc.ogSiteName.value)
    ensures doc.ogSiteName.None? && base.host.Some? ==> WebsiteNameOf(doc, base) == base.host.value
    ensures doc.ogSiteName.None? && base.host.None? ==> WebsiteNameOf(doc, base) == UnknownWebsite
    ensures forall d: Document :: d.ogSiteName == doc.ogSiteName ==> WebsiteNameOf(d, base) == WebsiteNameOf(doc, base)
  {
    PickOfTwo(TrimmedOpt(doc.ogSiteName), base.host, UnknownWebsite);
  }

  /** The icon filter tests substrings: a width or height mentioning "32"
      anywhere, or a class mentioning "icon" anywhere, excludes the image,
      so "320" and "iconic" exclude it too; a missing attribute passes. */
  lemma IconFilterBySubstring(img: Image)
    ensures img.width.None? && img.height.None? && img.className.None? ==> Qualifies(img)
    ensures img.width == Some("320") ==> !Qualifies(img)
    ensures img.className == Some("iconic") ==> !Qualifies(img)
  {
    var w: Bytes := "320";
    assert w[..2] == "32";
    var c: Bytes := "iconic";
    assert c[..4] == "icon";
  }

  /** An image excluded by the filter never supplies the card image, even
      when it comes first. */
  lemma ExcludedImageSkipped(doc: Document, base: UrlParts)
    requires doc.ogImage.None? && doc.bodyImages != [] && !Qualifies(doc.bodyImages[0])
    ensures CardImageOf(doc, base) == CardImageOf(doc.(bodyImages := doc.bodyImages[1..]), base)
  {
    var rest := doc.bodyImages[1..];
    var r := FirstQualifying(rest);
    if r.Some? {
      assert doc.bodyImages[r.value + 1] == rest[r.value];
    }
  }
}
