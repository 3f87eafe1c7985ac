/** The PHP string routines the card handler relies on, over PHP's byte strings:
    prefix and substring tests (`strpos(...) === 0`, XPath `contains`), `trim`,
    `dirname`, the decimal rendering of an integer in a concatenation, and
    `urlencode` together with its inverse `urldecode`. */
module PhpStrings {

  /** A PHP string is a sequence of bytes; a byte is a character below 256. */
  type Byte = c: char | c as int < 256
  type Bytes = seq<Byte>

  // ---------------------------------------------------------------------------
  // Prefix, suffix and substring tests

  /** `strpos($s, $p) === 0` for a non-empty `$p`: `p` is a prefix of `s`. */
  predicate StartsWith<T(==)>(s: seq<T>, p: seq<T>)
  {
    |p| <= |s| && s[..|p|] == p
  }

  predicate EndsWith<T(==)>(s: seq<T>, p: seq<T>)
  {
    |p| <= |s| && s[|s| - |p|..] == p
  }

  /** `p` occurs in `s` starting at index `i`. */
  predicate OccursAt<T(==)>(s: seq<T>, p: seq<T>, i: nat)
  {
    i + |p| <= |s| && s[i..i + |p|] == p
  }

  /** XPath `contains(s, p)`: `p` is a substring of `s` (the empty string is a
      substring of everything). */
  predicate Contains<T(==)>(s: seq<T>, p: seq<T>)
    decreases |s|
  {
    StartsWith(s, p) || (s != [] && Contains(s[1..], p))
  }

  /** The scan above finds an occurrence exactly when one exists. */
  lemma {:induction false} ContainsIffOccurs<T>(s: seq<T>, p: seq<T>)
    ensures Contains(s, p) <==> exists i: nat :: OccursAt(s, p, i)
    decreases |s|
  {
    if StartsWith(s, p) {
      assert OccursAt(s, p, 0);
    } else if s != [] {
      ContainsIffOccurs(s[1..], p);
      forall i: nat | OccursAt(s[1..], p, i) ensures OccursAt(s, p, i + 1) {
        assert s[i + 1..i + 1 + |p|] == s[1..][i..i + |p|];
      }
      forall i: nat | 0 < i && OccursAt(s, p, i) ensures OccursAt(s[1..], p, i - 1) {
        assert s[1..][i - 1..i - 1 + |p|] == s[i..i + |p|];
      }
    }
  }

  /** A string contains every string it starts with, and every string that
      occurs at a known position. */
  lemma OccursAtContains<T>(s: seq<T>, p: seq<T>, i: nat)
    requires OccursAt(s, p, i)
    ensures Contains(s, p)
  {
    ContainsIffOccurs(s, p);
  }

  // ---------------------------------------------------------------------------
  // trim

  /** The characters PHP's `trim` strips by default: space, tab, line feed,
      carriage return, NUL and vertical tab. */
  predicate IsTrimChar(c: Byte)
  {
    c == ' ' || c == '\t' || c == '\n' || c == '\r' || c == '\0' || c == '\U{000B}'
  }

  function TrimLeft(s: Bytes): (r: Bytes)
    ensures |r| <= |s| && r == s[|s| - |r|..]
    ensures forall i :: 0 <= i < |s| - |r| ==> IsTrimChar(s[i])
    ensures r == [] || !IsTrimChar(r[0])
  {
    if s != [] && IsTrimChar(s[0]) then TrimLeft(s[1..]) else s
  }

  function TrimRight(s: Bytes): (r: Bytes)
    ensures |r| <= |s| && r == s[..|r|]
    ensures forall i :: |r| <= i < |s| ==> IsTrimChar(s[i])
    ensures r == [] || !IsTrimChar(r[|r| - 1])
  {
    if s != [] && IsTrimChar(s[|s| - 1]) then TrimRight(s[..|s| - 1]) else s
  }

  /** Where `trim` starts the infix it keeps. */
  function TrimOffset(s: Bytes): (lo: nat)
    ensures lo <= |s|
  {
    |s| - |TrimLeft(s)|
  }

  /** PHP `trim($s)`: the longest infix of `s` that neither starts nor ends
      with a trim character, everything cut off on either side being trim
      characters. */
  function Trim(s: Bytes): (r: Bytes)
    ensures TrimOffset(s) + |r| <= |s| && r == s[TrimOffset(s)..TrimOffset(s) + |r|]
    ensures forall i :: 0 <= i < TrimOffset(s) ==> IsTrimChar(s[i])
    ensures forall i :: TrimOffset(s) + |r| <= i < |s| ==> IsTrimChar(s[i])
    ensures r == [] || (!IsTrimChar(r[0]) && !IsTrimChar(r[|r| - 1]))
  {
    TrimRight(TrimLeft(s))
  }

  /** A string that neither starts nor ends with a trim character is left
      as it is. */
  lemma TrimUnchanged(s: Bytes)
    requires s == [] || (!IsTrimChar(s[0]) && !IsTrimChar(s[|s| - 1]))
    ensures Trim(s) == s
  {
  }

  /** Trimming twice is trimming once. */
  lemma TrimIdempotent(s: Bytes)
    ensures Trim(Trim(s)) == Trim(s)
  {
    TrimUnchanged(Trim(s));
  }

  // ---------------------------------------------------------------------------
  // dirname

  /** The prefix left after removing every trailing '/'. */
  function DropTrailingSlashes(s: Bytes): (r: Bytes)
    ensures |r| <= |s| && r == s[..|r|]
    ensures r == [] || r[|r| - 1] != '/'
    ensures forall i :: |r| <= i < |s| ==> s[i] == '/'
  {
    if s != [] && s[|s| - 1] == '/' then DropTrailingSlashes(s[..|s| - 1]) else s
  }

  /** The prefix left after removing the trailing run of non-'/' bytes. */
  function DropLastSegment(s: Bytes): (r: Bytes)
    ensures |r| <= |s| && r == s[..|r|]
    ensures r == [] || r[|r| - 1] == '/'
    ensures forall i :: |r| <= i < |s| ==> s[i] != '/'
  {
    if s != [] && s[|s| - 1] != '/' then DropLastSegment(s[..|s| - 1]) else s
  }

  /** PHP `dirname($path)` on a system whose only separator is '/': strip the
      trailing slashes, then the last segment, then the slashes before it;
      "/" when only slashes remain and "." when no slash was found.
      The empty path gives the empty string. */
  function Dirname(path: Bytes): (r: Bytes)
    ensures r == [] <==> path == []
    ensures path != [] ==> r == "." || r == "/" || (|r| < |path| && r == path[..|r|] && r[|r| - 1] != '/' && path[|r|] == '/')
  {
    if path == [] then []
    else
      var stem := DropTrailingSlashes(path);
      if stem == [] then "/"
      else
        var parent := DropLastSegment(stem);
        if parent == [] then "."
        else
          var dir := DropTrailingSlashes(parent);
          if dir == [] then "/"
          else
            assert path[|dir|] == parent[|dir|] == '/';
            dir
  }

  /** A segment: a non-empty run of bytes without '/'. */
  predicate IsSegment(seg: Bytes)
  {
    seg != [] && forall i :: 0 <= i < |seg| ==> seg[i] != '/'
  }

  /** Removing the last segment of `prefix + seg` leaves `prefix`. */
  lemma {:induction false} DropLastSegmentOf(prefix: Bytes, seg: Bytes)
    requires prefix == [] || prefix[|prefix| - 1] == '/'
    requires IsSegment(seg)
    ensures DropLastSegment(prefix + seg) == prefix
    decreases |seg|
  {
    var s := prefix + seg;
    assert s[..|s| - 1] == prefix + seg[..|seg| - 1];
    if |seg| > 1 {
      DropLastSegmentOf(prefix, seg[..|seg| - 1]);
    } else {
      assert s[..|s| - 1] == prefix;
    }
  }

  /** The directory of `dir/seg` is `dir`, whatever run of slashes separates
      them and whatever slashes end the path. */
  lemma DirnameOfChild(dir: Bytes, k: nat, seg: Bytes, trailing: nat)
    requires dir != [] && dir[|dir| - 1] != '/'
    requires k >= 1 && IsSegment(seg)
    ensures Dirname(dir + Slashes(k) + seg + Slashes(trailing)) == dir
  {
    var stem := dir + Slashes(k) + seg;
    StripSlashes(stem, trailing);
    DropLastSegmentOf(dir + Slashes(k), seg);
    StripSlashes(dir, k);
  }

  /** The directory of `/seg`, or of `seg` after any run of slashes, is "/". */
  lemma DirnameOfRootChild(k: nat, seg: Bytes, trailing: nat)
    requires k >= 1 && IsSegment(seg)
    ensures Dirname(Slashes(k) + seg + Slashes(trailing)) == "/"
  {
    var stem := Slashes(k) + seg;
    StripSlashes(stem, trailing);
    DropLastSegmentOf(Slashes(k), seg);
    StripSlashes([], k);
    assert [] + Slashes(k) == Slashes(k);
  }

  /** A bare name has directory ".". */
  lemma DirnameOfBareName(seg: Bytes, trailing: nat)
    requires IsSegment(seg)
    ensures Dirname(seg + Slashes(trailing)) == "."
  {
    StripSlashes(seg, trailing);
    DropLastSegmentOf([], seg);
    assert [] + seg == seg;
  }

  /** A path made only of slashes has directory "/". */
  lemma DirnameOfSlashes(n: nat)
    requires n > 0
    ensures Dirname(Slashes(n)) == "/"
  {
    StripSlashes([], n);
    assert [] + Slashes(n) == Slashes(n);
  }

  function Slashes(n: nat): (r: Bytes)
    ensures |r| == n && forall i :: 0 <= i < n ==> r[i] == '/'
  {
    seq(n, _ => '/')
  }

  /** Removing the trailing slashes of `s + Slashes(n)` leaves `s`. */
  lemma {:induction false} StripSlashes(s: Bytes, n: nat)
    requires s == [] || s[|s| - 1] != '/'
    ensures DropTrailingSlashes(s + Slashes(n)) == s
  {
    if n == 0 {
      assert s + Slashes(n) == s;
    } else {
      var t := s + Slashes(n);
      assert t[..|t| - 1] == s + Slashes(n - 1);
      StripSlashes(s, n - 1);
    }
  }

  // ---------------------------------------------------------------------------
  // Decimal rendering of an integer (PHP's int-to-string in a concatenation)

  function DigitChar(d: nat): (c: Byte)
    requires d < 10
    ensures '0' <= c <= '9'
  {
    ('0' as int + d) as char
  }

  predicate IsDigit(c: Byte)
  {
    '0' <= c <= '9'
  }

  /** The decimal digits of `n`, without sign or leading zeros. */
  function DecimalString(n: nat): (r: Bytes)
    ensures r != [] && (|r| > 1 ==> r[0] != '0')
    ensures forall i :: 0 <= i < |r| ==> IsDigit(r[i])
    decreases n
  {
    if n < 10 then [DigitChar(n)] else DecimalString(n / 10) + [DigitChar(n % 10)]
  }

  function DigitValue(c: Byte): (d: nat)
    requires IsDigit(c)
    ensures d < 10
  {
    c as int - '0' as int
  }

  /** The number a string of decimal digits denotes. */
  function DecimalValue(s: Bytes): nat
    requires forall i :: 0 <= i < |s| ==> IsDigit(s[i])
  {
    if s == [] then 0
    else DecimalValue(s[..|s| - 1]) * 10 + DigitValue(s[|s| - 1])
  }

  /** Reading the rendered digits back gives the number. */
  lemma {:induction false} DecimalRoundTrip(n: nat)
    ensures DecimalValue(DecimalString(n)) == n
    decreases n
  {
    var s := DecimalString(n);
    if n >= 10 {
      DecimalRoundTrip(n / 10);
      assert s[..|s| - 1] == DecimalString(n / 10);
    }
  }

  /** Different numbers are rendered differently. */
  lemma DecimalInjective(m: nat, n: nat)
    requires DecimalString(m) == DecimalString(n)
    ensures m == n
  {
    DecimalRoundTrip(m);
    DecimalRoundTrip(n);
  }

  // ---------------------------------------------------------------------------
  // urlencode / urldecode

  /** The bytes `urlencode` leaves as they are: letters, digits, '-', '.', '_'. */
  predicate IsUnreserved(c: Byte)
  {
    ('0' <= c <= '9') || ('A' <= c <= 'Z') || ('a' <= c <= 'z') || c == '-' || c == '.' || c == '_'
  }

  /** A hexadecimal digit as `urlencode` writes it: '0'-'9' or 'A'-'F'. */
  predicate IsUpperHexDigit(c: Byte)
  {
    ('0' <= c <= '9') || ('A' <= c <= 'F')
  }

  /** The upper-case hexadecimal digit of `d`. */
  function HexDigit(d: nat): (c: Byte)
    requires d < 16
    ensures IsUpperHexDigit(c)
  {
    if d < 10 then ('0' as int + d) as char else ('A' as int + d - 10) as char
  }

  predicate IsHexDigit(c: Byte)
  {
    ('0' <= c <= '9') || ('A' <= c <= 'F') || ('a' <= c <= 'f')
  }

  function HexValue(c: Byte): (d: nat)
    requires IsHexDigit(c)
    ensures d < 16
  {
    if '0' <= c <= '9' then c as int - '0' as int
    else if 'A' <= c <= 'F' then c as int - 'A' as int + 10
    else c as int - 'a' as int + 10
  }

  /** `urlencode` of one byte: itself, '+' for a space, or '%' and two
      upper-case hexadecimal digits. */
  function EncodeByte(c: Byte): (r: Bytes)
    ensures 1 <= |r| <= 3
    ensures forall i :: 0 <= i < |r| ==> IsUnreserved(r[i]) || r[i] == '+' || (i == 0 && r[i] == '%')
    ensures r[0] == '%' ==> |r| == 3 && IsUpperHexDigit(r[1]) && IsUpperHexDigit(r[2])
  {
    if IsUnreserved(c) then [c]
    else if c == ' ' then ['+']
    else ['%', HexDigit(c as int / 16), HexDigit(c as int % 16)]
  }

  /** PHP `urlencode($s)`. Its output holds only unreserved bytes, '+' and
      '%', and every '%' is followed by two upper-case hexadecimal digits. */
  function UrlEncode(s: Bytes): (r: Bytes)
    ensures forall i :: 0 <= i < |r| ==> IsUnreserved(r[i]) || r[i] == '+' || r[i] == '%'
    ensures forall i :: 0 <= i < |r| && r[i] == '%' ==>
              i + 2 < |r| && IsUpperHexDigit(r[i + 1]) && IsUpperHexDigit(r[i + 2])
    ensures |s| <= |r| <= 3 * |s|
  {
    if s == [] then []
    else
      var e := EncodeByte(s[0]);
      var rest := UrlEncode(s[1..]);
      var r := e + rest;
      forall i | 0 <= i < |r| && r[i] == '%'
        ensures i + 2 < |r| && IsUpperHexDigit(r[i + 1]) && IsUpperHexDigit(r[i + 2])
      {
        if i >= |e| {
          assert r[i] == rest[i - |e|];
          assert r[i + 1] == rest[i - |e| + 1] && r[i + 2] == rest[i - |e| + 2];
        } else {
          assert i == 0 && r[1] == e[1] && r[2] == e[2];
        }
      }
      r
  }

  /** PHP `urldecode($s)`: '+' is a space, '%' followed by two hexadecimal
      digits is the byte they denote, every other byte stands for itself. */
  function UrlDecode(s: Bytes): Bytes
  {
    if s == [] then []
    else if s[0] == '+' then [' '] + UrlDecode(s[1..])
    else if s[0] == '%' && |s| >= 3 && IsHexDigit(s[1]) && IsHexDigit(s[2]) then
      [(HexValue(s[1]) * 16 + HexValue(s[2])) as char] + UrlDecode(s[3..])
    else [s[0]] + UrlDecode(s[1..])
  }

  lemma DecodeEncodedByte(c: Byte, rest: Bytes)
    ensures UrlDecode(EncodeByte(c) + rest) == [c] + UrlDecode(rest)
  {
    var e := EncodeByte(c) + rest;
    if IsUnreserved(c) {
      assert e[1..] == rest;
    } else if c == ' ' {
      assert e[1..] == rest;
    } else {
      var hi, lo := c as int / 16, c as int % 16;
      assert HexValue(HexDigit(hi)) == hi;
      assert HexValue(HexDigit(lo)) == lo;
      assert e[3..] == rest;
    }
  }

  /** Decoding what `urlencode` produced gives back the original bytes. */
  lemma {:induction false} UrlRoundTrip(s: Bytes)
    ensures UrlDecode(UrlEncode(s)) == s
  {
    if s != [] {
      DecodeEncodedByte(s[0], UrlEncode(s[1..]));
      UrlRoundTrip(s[1..]);
    }
  }

  /** `urlencode` is one-to-one. */
  lemma UrlEncodeInjective(s: Bytes, t: Bytes)
    requires UrlEncode(s) == UrlEncode(t)
    ensures s == t
  {
    UrlRoundTrip(s);
    UrlRoundTrip(t);
  }
}
