/** The page script's `truncateText`, which shortens a headline for the card
    at a word boundary near the limit and marks the cut with "...". A string
    here is a sequence of UTF-16 code units, as a script string is. */
module CardScript {

  /** `s.lastIndexOf(' ')`: the last position holding a space, -1 when
      there is none. */
  function LastIndexOfSpace(s: string): (r: int)
    ensures -1 <= r < |s|
    ensures r >= 0 ==> s[r] == ' '
    ensures forall i :: r < i < |s| ==> s[i] != ' '
  {
    if s == [] then -1
    else if s[|s| - 1] == ' ' then |s| - 1
    else LastIndexOfSpace(s[..|s| - 1])
  }

  /** The end index `substring(0, n)` uses on a string of length `len`: `n`
      clamped to the range 0..len. */
  function SubstringEnd(n: int, len: nat): (e: nat)
    ensures e <= len
    ensures 0 <= n <= len ==> e == n
  {
    if n < 0 then 0 else if n > len then len else n
  }

  function Max0(n: int): nat
  {
    if n < 0 then 0 else n
  }

  /** `truncateText(text, maxLength)`. A text that fits is returned as it is.
      Otherwise the result is a prefix of the text followed by "...": the
      prefix is the first `maxLength` characters, cut back to the last space
      in them only when that space is past `maxLength - 10`; so at most nine
      characters are dropped besides the space, and the cut falls either at
      the limit, with no space in the last nine positions before it, or at
      a space followed by no other space up to the limit. */
  function TruncateText(text: string, maxLength: int): (r: string)
    ensures |text| <= maxLength ==> r == text
    ensures |text| > maxLength ==> 3 <= |r| && maxLength - 10 < |r| - 3 <= Max0(maxLength)
    ensures |text| > maxLength ==> r == text[..|r| - 3] + "..."
    ensures |text| > maxLength && |r| - 3 < Max0(maxLength) ==>
              text[|r| - 3] == ' ' && forall i :: |r| - 3 < i < maxLength ==> text[i] != ' '
    ensures |text| > maxLength && |r| - 3 == Max0(maxLength) ==>
              forall i :: 0 <= i && maxLength - 10 < i < maxLength ==> text[i] != ' '
    ensures maxLength >= 0 ==> |r| <= maxLength + 3
  {
    if |text| <= maxLength then text
    else
      var truncated := text[..SubstringEnd(maxLength, |text|)];
      var lastSpace := LastIndexOfSpace(truncated);
      var kept := if lastSpace != -1 && lastSpace > maxLength - 10 then truncated[..lastSpace] else truncated;
      kept + "..."
  }

  /** With no space among the last nine positions before the limit, the
      text is cut exactly at the limit. */
  lemma CutAtLimit(text: string, maxLength: nat)
    requires |text| > maxLength
    requires forall i :: 0 <= i && maxLength - 10 < i < maxLength ==> text[i] != ' '
    ensures TruncateText(text, maxLength) == text[..maxLength] + "..."
  {
  }

  /** With a space at position `k` among the last nine before the limit and
      none after it up to the limit, the text is cut at that space. */
  lemma CutAtSpace(text: string, maxLength: nat, k: nat)
    requires |text| > maxLength
    requires maxLength - 10 < k < maxLength && text[k] == ' '
    requires forall i :: k < i < maxLength ==> text[i] != ' '
    ensures TruncateText(text, maxLength) == text[..k] + "..."
  {
    var r := TruncateText(text, maxLength);
    assert |r| - 3 < maxLength by {
      assert text[k] == ' ';
    }
  }

  /** The card shows headlines shortened to 120 code units, so the shown
      text has at most 123. */
  lemma CardHeadlineBound(headline: string)
    ensures |TruncateText(headline, 120)| <= 123
    ensures |headline| <= 120 ==> TruncateText(headline, 120) == headline
  {
  }
}
