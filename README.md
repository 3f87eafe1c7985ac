# News card generator: metadata extraction, modelled in Dafny

The News Card Generator takes a web page URL and answers with a link-preview
"card": a headline, a representative image, the website name, the original
URL and a favicon URL. Its PHP request handler (`ImgAndTitle/card2.php`,
lines 8-117) does the following:

- It validates the URL.
- It fetches the page once.
- It parses the HTML and picks each card field by an ordered chain of
  fallbacks: Open Graph meta tags, then the `<title>`, then the first body
  `<img>` that does not look like an icon, then defaults.
- It makes a relative image source absolute.
- It returns a JSON envelope that is either a failure message or the card.

The page's script shortens the headline with `truncateText` (lines 247-258)
before showing it.

This project models that core as Dafny modules, one per component:

- `Wrappers` (`wrappers.dfy`): optional values, which stand for PHP's `null`
  and for a query that matched nothing.
- `PhpStrings` (`php_strings.dfy`): the PHP string routines the handler
  relies on, over byte strings:
  - the prefix test `strpos(...) === 0` and XPath `contains`;
  - `trim` and `dirname`;
  - the decimal rendering of the HTTP status;
  - `urlencode`, together with `urldecode` as its proved inverse.
- `Resolver` (`resolver.dfy`): the relative image URL resolver.
- `Extractor` (`extractor.dfy`): the three fallback chains (headline, card
  image, website name) and the icon filter.
  - The chains are written as specification functions, each an ordered list
    of candidates.
  - `ExtractCard` is the handler's step-by-step version, which sets defaults
    and then overwrites them. It is proved equal to the specification
    functions.
- `Handler` (`handler.dfy`): the response envelope with its three outcomes,
  the failure message and the favicon URL.
  - `HandleRequest` mirrors the handler's statements.
  - `HandleRequest` is proved equal to the decision function `Respond`.
- `CardScript` (`truncate.dfy`): `truncateText`.

The fetch, the HTML parser, the URL validator and `parse_url` are not
modelled. Their results are inputs:

- a `FetchOutcome` (body or none, HTTP status, transport error text);
- a `parse` function from the body to a `Document` (the first `og:title`,
  `og:image` and `og:site_name` contents, the first `<title>` text, and the
  body images in document order);
- a `valid` flag;
- the `UrlParts` of the URL.

The code follows its own order of fallbacks, and the model follows the code:

- The headline is not simply "`og:title`, else `<title>`". The `<title>` is
  consulted only when `og:image` is absent, and then it overrides
  `og:title` (`HeadlineFromTitle`).
- A present but empty Open Graph tag is used as it is. The trimmed value may
  be empty, so card fields can be empty strings.
- When `dirname` of the base path is `/` (the path `/post`, or no path at
  all), the resolver writes two slashes between the host and the source:
  `https://example.com//img.jpg` (`ExampleDoubleSlash`,
  `RelativeSourceWithoutPath`).

## Model

| member | source | states |
|---|---|---|
| PhpStrings.Trim | ImgAndTitle/card2.php:58 | `trim` keeps an infix of its input that neither starts nor ends with space, tab, line feed, carriage return, NUL or vertical tab, and everything cut off on either side is such a character |
| PhpStrings.TrimUnchanged | ImgAndTitle/card2.php:58 | a value without surrounding whitespace passes through `trim` unchanged |
| PhpStrings.TrimIdempotent | ImgAndTitle/card2.php:58 | trimming an already trimmed value changes nothing |
| PhpStrings.ContainsIffOccurs | ImgAndTitle/card2.php:70 | XPath `contains` holds exactly when the pattern occurs at some position of the attribute value |
| PhpStrings.Dirname | ImgAndTitle/card2.php:87 | `dirname` is empty only for the empty path; otherwise it is ".", "/", or a proper prefix of the path that does not end in '/' and is followed by '/' in the path |
| PhpStrings.DirnameOfChild | ImgAndTitle/card2.php:87 | the directory of `dir`, a run of one or more slashes, a segment and any number of trailing slashes is `dir` (so `/blog//post` gives `/blog`) |
| PhpStrings.DirnameOfRootChild | ImgAndTitle/card2.php:87 | the directory of a run of one or more slashes, a segment and any trailing slashes is "/" (`/post` and `//b` both give "/") |
| PhpStrings.DirnameOfBareName | ImgAndTitle/card2.php:87 | a segment followed only by slashes has directory "." |
| PhpStrings.DirnameOfSlashes | ImgAndTitle/card2.php:81-88 | a path of slashes only, such as the default path "/", has directory "/" |
| PhpStrings.DecimalString | ImgAndTitle/card2.php:40 | the HTTP status is written as decimal digits, with no leading zero |
| PhpStrings.DecimalRoundTrip | ImgAndTitle/card2.php:40 | reading the written digits back gives the status code |
| PhpStrings.DecimalInjective | ImgAndTitle/card2.php:40 | different status codes give different texts in the failure message |
| PhpStrings.UrlEncode | ImgAndTitle/card2.php:49 | `urlencode` output holds only letters, digits, `-._`, `+` and `%`, every `%` is followed by two upper-case hexadecimal digits, and it is one to three times as long as its input |
| PhpStrings.UrlRoundTrip | ImgAndTitle/card2.php:49 | `urldecode(urlencode(s)) == s` for every byte string |
| PhpStrings.UrlEncodeInjective | ImgAndTitle/card2.php:49 | `urlencode` maps different strings to different strings |
| Resolver.ResolveImageSrc | ImgAndTitle/card2.php:74-88 | a source starting with `http` or `//` is returned unchanged; the source always ends the result; any other source follows `scheme://host` |
| Resolver.RootedSource | ImgAndTitle/card2.php:84-85 | a source starting with a single '/' resolves to `scheme://host` followed by the source |
| Resolver.RelativeSource | ImgAndTitle/card2.php:86-88 | any other relative source resolves to `scheme://host`, then `dirname(path)` followed by '/' ("/" when `dirname` gives "."), then the source |
| Resolver.RelativeSourceWithoutPath | ImgAndTitle/card2.php:79-88 | with no path in the URL, the default "/" makes a relative source follow `scheme://host//` |
| Resolver.RelativeSourceBesideFile | ImgAndTitle/card2.php:86-88 | a relative source next to the page `dir/segment` resolves to `scheme://host` + `dir/` + source, for any `dir` other than ".", with or without a leading '/' |
| Resolver.RelativeSourceBesideBareName | ImgAndTitle/card2.php:86-88 | a path that is a bare segment (such as the path of a host-less URL) has directory ".", which the resolver replaces by "/": the source follows `scheme://host/` |
| Resolver.RelativeSourceBesideRootFile | ImgAndTitle/card2.php:86-88 | a relative source next to the page `/segment` resolves with a doubled slash: `scheme://host//` + source |
| Resolver.ExampleRelative | ImgAndTitle/card2.php:86-88 | base `https://example.com/blog/post1` with `img/photo.jpg` gives `https://example.com/blog/img/photo.jpg` |
| Resolver.ExampleRooted | ImgAndTitle/card2.php:84-85 | the same base with `/assets/photo.jpg` gives `https://example.com/assets/photo.jpg` |
| Resolver.ExampleAbsolute | ImgAndTitle/card2.php:74-75 | `https://cdn.example.com/photo.jpg` is kept unchanged |
| Resolver.ExampleDoubleSlash | ImgAndTitle/card2.php:87-88 | base path `/post` with `img.jpg` gives `https://example.com//img.jpg` |
| Extractor.FirstQualifying | ImgAndTitle/card2.php:70 | finds the first body image, in document order, whose width and height do not contain "32" and whose class does not contain "icon"; finds none when no image passes |
| Extractor.FirstQualifyingUnique | ImgAndTitle/card2.php:70 | an image that passes the filter with none passing before it is the one chosen |
| Extractor.IconFilterBySubstring | ImgAndTitle/card2.php:70 | missing attributes pass the icon filter; a width of "320" or a class of "iconic" fails it, because the tests are substring tests |
| Extractor.ExcludedImageSkipped | ImgAndTitle/card2.php:70 | a leading image that fails the filter has no effect on the card image |
| Extractor.ExtractCard | ImgAndTitle/card2.php:46-98 | the step-by-step extraction (defaults, then `og:title`, `og:image` or `<title>` and body image, then `og:site_name` or host) gives exactly the three fallback chains |
| Extractor.HeadlineWithOgImage | ImgAndTitle/card2.php:57-66 | with `og:image` present, the headline is the trimmed `og:title` or "No Headline Found", and `<title>` has no effect |
| Extractor.HeadlineFromTitle | ImgAndTitle/card2.php:63-66 | with `og:image` absent and a `<title>` present, the headline is the trimmed title text, whatever `og:title` says |
| Extractor.HeadlineWithoutTitle | ImgAndTitle/card2.php:57-66 | with neither `og:image` nor `<title>`, the headline is the trimmed `og:title` or "No Headline Found" |
| Extractor.OgImageWins | ImgAndTitle/card2.php:60-62 | a present `og:image` is the card image, trimmed and not resolved, even when empty; the body images then have no effect |
| Extractor.CardImageFromBody | ImgAndTitle/card2.php:63-91 | without `og:image`, the card image is the resolved, trimmed `src` of the first image passing the filter, or the placeholder when no image passes or it has no `src` |
| Extractor.BodyImageEndsWithSrc | ImgAndTitle/card2.php:70-90 | a card image taken from the body ends with that image's trimmed `src`, and equals it when the `src` is absolute |
| Extractor.WebsiteNameChain | ImgAndTitle/card2.php:95-98 | the website name is the trimmed `og:site_name`, else the URL host, else "Unknown Website", and depends on nothing else in the page |
| Handler.FetchFailureMessage | ImgAndTitle/card2.php:39-40 | the failure message starts with the fixed text, names the status code in decimal right after it, and ends with " Error: " and the transport error |
| Handler.FaviconUrl | ImgAndTitle/card2.php:49 | the favicon URL is the lookup service's address followed by a query that decodes back to the requested URL |
| Handler.HandleRequest | ImgAndTitle/card2.php:8-117 | the handler's statements produce exactly the decision `Respond`: validation message, fetch failure message, or the extracted card |
| Handler.InvalidUrlNeverFetches | ImgAndTitle/card2.php:11 | an invalid URL gives "Please enter a valid URL.", independent of any fetch outcome or page |
| Handler.FailedFetch | ImgAndTitle/card2.php:39-43 | a missing body or a status of 400 or more gives the failure message with status and error, independent of the page |
| Handler.NotFoundMessage | ImgAndTitle/card2.php:39-40 | a 404 response fails with a message containing "404" |
| Handler.SuccessIffFetched | ImgAndTitle/card2.php:39 | a valid request succeeds exactly when a body arrived with a status below 400 (so 399 succeeds) |
| Handler.SuccessFields | ImgAndTitle/card2.php:101-108 | a success carries the three extracted fields, the request URL unchanged and a favicon URL that decodes back to it |
| Handler.DefaultMessageNeverSent | ImgAndTitle/card2.php:9 | the initial message "Invalid URL or failed to process." is overwritten on every path |
| Handler.FaviconDistinguishesUrls | ImgAndTitle/card2.php:49 | different request URLs get different favicon URLs |
| Handler.NewsArticleScenario | ImgAndTitle/card2.php:46-108 | `https://news.example/article` with `og:title` "Big Story" and an `og:image` yields that headline and image, "news.example", the URL and its favicon URL |
| CardScript.LastIndexOfSpace | ImgAndTitle/card2.php:253 | `lastIndexOf(' ')` returns -1 or a position holding a space, with no space after it |
| CardScript.TruncateText | ImgAndTitle/card2.php:247-258 | a text that fits is unchanged; otherwise the result is a prefix of at most `maxLength` characters followed by "...", cut at the last space only when that space is past `maxLength - 10`, and at most `maxLength + 3` long |
| CardScript.CutAtLimit | ImgAndTitle/card2.php:252-257 | with no space in the nine positions before the limit, the text is cut exactly at `maxLength` |
| CardScript.CutAtSpace | ImgAndTitle/card2.php:253-255 | with a last space within nine positions of the limit, the text is cut at that space |
| CardScript.CardHeadlineBound | ImgAndTitle/card2.php:299-300 | the headline shown on a card is at most 123 characters, and unchanged when it has at most 120 |

## Left out

- The cURL transfer and its options (lines 14-37) are left out: redirect following, the 15-second timeout, the user agent and the headers. This is network I/O; only its outcome enters the model, as a `FetchOutcome`.
- `DOMDocument::loadHTML` and the XPath queries (lines 51-54, 57, 60, 65, 70, 95) are left out. This is a foreign, lenient HTML parser, so the parsed page enters as a `Document`. `[1]` in the image query selects the first passing image of each parent element. The model takes the first passing image in document order, and uses no body image when that image has no `src`. The two differ only when passing images have different parents and the first lacks a `src`.
- Under PHP 8, `loadHTML` throws a `ValueError` on an empty body, and `catch (Exception $e)` does not catch it. The model hands an empty body to the parser like any other body.
- `filter_var(..., FILTER_VALIDATE_URL)` and `parse_url` (lines 11, 48, 78) are library routines. Their results are inputs: a validity flag and the optional scheme, host and path. The model takes a URL that passes validation to be parsed successfully.
- The `$_POST['url'] ?? ''` default (line 8) is request plumbing; the URL enters as given.
- The `catch` block (lines 110-113) is left out: the "Server error: " message and the `error_log` call. None of the modelled steps raises an exception.
- `header`, `json_encode`, `echo` and `exit` (lines 6, 41-42, 117-118) are left out. This is serialisation and output. The `Response` datatype stands for the JSON object: `success` is the constructor, and the other keys are its fields.
- `dirname` treats only '/' as a separator, as on Unix. The backslash handling PHP has on Windows is not modelled.
- The page's HTML, CSS and script are left out, except `truncateText` (lines 121-341): form handling, `fetch`, DOM insertion, `Date.now` card ids and the loader. This is user interface and asynchronous I/O.
- CardScript.TruncateText: `maxLength` is an integer. The non-integer and NaN arguments that JavaScript would accept are not modelled. Characters stand for UTF-16 code units, which is what `length` and `substring` count.
