/** The request handler of the card service: validates the URL, looks at the
    outcome of the fetch, runs the extractor on the parsed page and builds the
    response envelope. */
module Handler {
  import opened Wrappers
  import opened PhpStrings
  import opened Resolver
  import opened Extractor

  /** What the single fetch of the page reported: the body, or none when the
      transfer failed; the HTTP status (0 when no response arrived); and the
      transport error text (empty when there was none). */
  datatype FetchOutcome = FetchOutcome(body: Option<Bytes>, httpCode: nat, transportError: Bytes)

  /** The envelope sent back: a failure with its message, or a success with
      the card's fields. */
  datatype Response =
    | Failure(message: Bytes)
    | Success(headline: Bytes, cardImage: Bytes, websiteName: Bytes, originalUrl: Bytes, favicon: Bytes)

  const InvalidUrlMessage: Bytes := "Please enter a valid URL."
  const DefaultMessage: Bytes := "Invalid URL or failed to process."
  /** One string, "Failed to fetch content from URL. HTTP Code: ", written as
      two literals: the verifier shows each shorter literal to be a byte
      string, which it does not manage for the whole. */
  const FetchFailurePrefix: Bytes := "Failed to fetch content " + "from URL. HTTP Code: "
  const FaviconService: Bytes := "https://www.google.com/s2/favicons?domain="

  /** The fetch failed: no body, or an HTTP status of 400 or above. */
  predicate FetchFailed(fetched: FetchOutcome)
  {
    fetched.body.None? || fetched.httpCode >= 400
  }

  /** The failure message names the HTTP status in decimal and the transport
      error text. */
  function FetchFailureMessage(fetched: FetchOutcome): (m: Bytes)
    ensures StartsWith(m, FetchFailurePrefix)
    ensures EndsWith(m, " Error: " + fetched.transportError)
    ensures OccursAt(m, DecimalString(fetched.httpCode), |FetchFailurePrefix|)
  {
    var code := DecimalString(fetched.httpCode);
    var m := FetchFailurePrefix + code + " Error: " + fetched.transportError;
    assert m[|FetchFailurePrefix|..|FetchFailurePrefix| + |code|] == code;
    m
  }

  /** The favicon lookup URL: the service address followed by the
      URL-encoded request URL, which decodes back to that URL. */
  function FaviconUrl(url: Bytes): (f: Bytes)
    ensures StartsWith(f, FaviconService)
    ensures UrlDecode(f[|FaviconService|..]) == url
  {
    var f := FaviconService + UrlEncode(url);
    assert f[|FaviconService|..] == UrlEncode(url);
    UrlRoundTrip(url);
    f
  }

  /** The three outcomes of a request: an invalid URL, a failed fetch, or a
      card extracted from the parsed page. `valid` is the verdict of the URL
      validator, `base` the parts of the URL, `parse` the HTML parser. */
  function Respond(url: Bytes, valid: bool, base: UrlParts, fetched: FetchOutcome, parse: Bytes -> Document): Response
  {
    if !valid then Failure(InvalidUrlMessage)
    else if FetchFailed(fetched) then Failure(FetchFailureMessage(fetched))
    else
      var doc := parse(fetched.body.value);
      Success(HeadlineOf(doc), CardImageOf(doc, base), WebsiteNameOf(doc, base), url, FaviconUrl(url))
  }

  /** The handler step by step: a default failure envelope, overwritten by
      the validation message, the fetch failure message, or the card. */
  method HandleRequest(url: Bytes, valid: bool, base: UrlParts, fetched: FetchOutcome, parse: Bytes -> Document)
    returns (data: Response)
    ensures data == Respond(url, valid, base, fetched, parse)
  {
    data := Failure(DefaultMessage);
    if valid {
      if fetched.body.None? || fetched.httpCode >= 400 {
        data := Failure(FetchFailurePrefix + DecimalString(fetched.httpCode) + " Error: " + fetched.transportError);
        return;
      }
      var favicon := FaviconService + UrlEncode(url);
      var doc := parse(fetched.body.value);
      var headline, cardImage, websiteName := ExtractCard(doc, base);
      data := Success(headline, cardImage, websiteName, url, favicon);
    } else {
      data := Failure(InvalidUrlMessage);
    }
  }

  // ---------------------------------------------------------------------------
  // Properties of the envelope

  /** An invalid URL gives the validation message, whatever the network
      and the page would have given: the fetch is never consulted. */
  lemma InvalidUrlNeverFetches(url: Bytes, base: UrlParts, f1: FetchOutcome, f2: FetchOutcome,
                               p1: Bytes -> Document, p2: Bytes -> Document)
    ensures Respond(url, false, base, f1, p1) == Failure(InvalidUrlMessage)
    ensures Respond(url, false, base, f1, p1) == Respond(url, false, base, f2, p2)
  {
  }

  /** A missing body or a status of 400 or more fails, with a message naming
      the status and the transport error; the page is never parsed. */
  lemma FailedFetch(url: Bytes, base: UrlParts, fetched: FetchOutcome, p1: Bytes -> Document, p2: Bytes -> Document)
    requires fetched.body.None? || fetched.httpCode >= 400
    ensures Respond(url, true, base, fetched, p1) ==
      Failure(FetchFailurePrefix + DecimalString(fetched.httpCode) + " Error: " + fetched.transportError)
    ensures Respond(url, true, base, fetched, p1) == Respond(url, true, base, fetched, p2)
  {
  }

  /** A status of 404 is named as "404" in the failure message. */
  lemma NotFoundMessage(url: Bytes, base: UrlParts, fetched: FetchOutcome, parse: Bytes -> Document)
    requires fetched.httpCode == 404
    ensures Respond(url, true, base, fetched, parse).Failure?
    ensures Contains(Respond(url, true, base, fetched, parse).message, "404")
  {
    var m := FetchFailureMessage(fetched);
    assert DecimalString(404) == "404" by {
      assert DecimalString(40) == "40" by {
        assert DecimalString(4) == "4";
      }
    }
    OccursAtContains(m, "404", |FetchFailurePrefix|);
  }

  /** A body with any status below 400, 399 included, succeeds: the
      failure test is exactly the missing body or the status bound. */
  lemma SuccessIffFetched(url: Bytes, base: UrlParts, fetched: FetchOutcome, parse: Bytes -> Document)
    ensures Respond(url, true, base, fetched, parse).Success? <==> fetched.body.Some? && fetched.httpCode < 400
  {
  }

  /** A success carries the card extracted from the parsed body, the request
      URL unchanged, and a favicon URL whose query decodes back to it. */
  lemma SuccessFields(url: Bytes, base: UrlParts, fetched: FetchOutcome, parse: Bytes -> Document)
    requires fetched.body.Some? && fetched.httpCode < 400
    ensures var r := Respond(url, true, base, fetched, parse);
            var doc := parse(fetched.body.value);
            && r.Success?
            && r.headline == HeadlineOf(doc)
            && r.cardImage == CardImageOf(doc, base)
            && r.websiteName == WebsiteNameOf(doc, base)
            && r.originalUrl == url
            && StartsWith(r.favicon, FaviconService)
            && UrlDecode(r.favicon[|FaviconService|..]) == url
  {
  }

  /** The default message is never sent: every path overwrites it. */
  lemma DefaultMessageNeverSent(url: Bytes, valid: bool, base: UrlParts, fetched: FetchOutcome, parse: Bytes -> Document)
    ensures Respond(url, valid, base, fetched, parse) != Failure(DefaultMessage)
  {
    if valid && FetchFailed(fetched) {
      var m := FetchFailureMessage(fetched);
      assert m[0] == FetchFailurePrefix[0] == 'F';
      assert DefaultMessage[0] == 'I';
    }
  }

  /** Different request URLs get different favicon URLs. */
  lemma FaviconDistinguishesUrls(u1: Bytes, u2: Bytes)
    requires FaviconUrl(u1) == FaviconUrl(u2)
    ensures u1 == u2
  {
  }

  /** The end-to-end scenario: `https://news.example/article` serving
      `og:title` "Big Story" and `og:image` `https://news.example/img.jpg`
      yields a card with that headline and image, the host as website name,
      the URL itself and its favicon URL. */
  lemma NewsArticleScenario(url: Bytes, base: UrlParts, fetched: FetchOutcome, parse: Bytes -> Document)
    requires url == "https://news.example/article"
    requires base == UrlParts(Some("https"), Some("news.example"), Some("/article"))
    requires fetched.body.Some? && fetched.httpCode == 200
    requires parse(fetched.body.value) == Document(Some("Big Story"), Some("https://news.example/img.jpg"), None, None, [])
    ensures Respond(url, true, base, fetched, parse)
         == Success("Big Story", "https://news.example/img.jpg", "news.example", url, FaviconUrl(url))
  {
    var doc := parse(fetched.body.value);
    var title: Bytes := "Big Story";
    var image: Bytes := "https://news.example/img.jpg";
    TrimUnchanged(title);
    TrimUnchanged(image);
    HeadlineWithOgImage(doc);
    OgImageWins(doc, base);
    WebsiteNameChain(doc, base);
  }
}
