/** The string helpers of the static site (src/assets/js/utils.js): the two date
    formatters and `getQueryString`, with the page's `location.search` passed in
    as a parameter. */
module Utils {
  import opened Common

  /** `formatDate`: `YYYYMMDD` becomes `YYYY-MM-DD`; anything that is not exactly
      8 characters long (the empty string included) is returned unchanged. */
  function FormatDate(s: string): (r: string)
    ensures |s| != 8 ==> r == s
    ensures |s| == 8 ==> |r| == 10 && r[4] == '-' && r[7] == '-'
    ensures |s| == 8 ==> r[..4] + r[5..7] + r[8..] == s
  {
    if |s| != 8 then s else DashDate(s)
  }

  /** `formatDateCN`: `YYYYMMDD` becomes `YYYY年MM月DD日`, with the same pass-through rule. */
  function FormatDateCN(s: string): (r: string)
    ensures |s| != 8 ==> r == s
    ensures |s| == 8 ==> |r| == 11 && r[4] == '年' && r[7] == '月' && r[10] == '日'
    ensures |s| == 8 ==> r[..4] + r[5..7] + r[8..10] == s
  {
    if |s| != 8 then s
    else
      var r := Substring(s, 0, 4) + "年" + Substring(s, 4, 6) + "月" + Substring(s, 6, 8) + "日";
      assert r[..4] == s[..4] && r[5..7] == s[4..6] && r[8..10] == s[6..8];
      assert s[..4] + s[4..6] + s[6..8] == s;
      r
  }

  /** The two formatters write the same digits, only the separators differ. */
  lemma FormattersAgree(s: string)
    requires |s| == 8
    ensures FormatDate(s)[..4] == FormatDateCN(s)[..4]
    ensures FormatDate(s)[5..7] == FormatDateCN(s)[5..7]
    ensures FormatDate(s)[8..] == FormatDateCN(s)[8..10]
  {
    var a := FormatDate(s);
    var b := FormatDateCN(s);
    assert a[..4] == s[..4] == b[..4] by {
      assert (a[..4] + a[5..7] + a[8..])[..4] == a[..4];
      assert (b[..4] + b[5..7] + b[8..10])[..4] == b[..4];
    }
    assert a[5..7] == s[4..6] == b[5..7] by {
      assert (a[..4] + a[5..7] + a[8..])[4..6] == a[5..7];
      assert (b[..4] + b[5..7] + b[8..10])[4..6] == b[5..7];
    }
    assert a[8..] == s[6..] == b[8..10] by {
      assert (a[..4] + a[5..7] + a[8..])[6..] == a[8..];
      assert (b[..4] + b[5..7] + b[8..10])[6..] == b[8..10];
    }
  }

  // ---------------------------------------------------------------------------
  // unescape

  predicate IsHexDigit(c: char) {
    '0' <= c <= '9' || 'a' <= c <= 'f' || 'A' <= c <= 'F'
  }

  function HexDigitValue(c: char): (v: nat)
    requires IsHexDigit(c)
    ensures v < 16
  {
    if '0' <= c <= '9' then c as int - '0' as int
    else if 'a' <= c <= 'f' then c as int - 'a' as int + 10
    else c as int - 'A' as int + 10
  }

  predicate AllHex(s: string) {
    forall i :: 0 <= i < |s| ==> IsHexDigit(s[i])
  }

  function HexValue(s: string): (v: nat)
    requires AllHex(s)
    ensures v < Pow16(|s|)
  {
    if s == [] then 0 else HexValue(s[..|s| - 1]) * 16 + HexDigitValue(s[|s| - 1])
  }

  function Pow16(n: nat): nat {
    if n == 0 then 1 else 16 * Pow16(n - 1)
  }

  /** A `%uXXXX` escape this model decodes: one whose code is not a UTF-16 surrogate. */
  predicate IsUnicodeEscape(s: string) {
    && |s| >= 6 && s[0] == '%' && s[1] == 'u' && AllHex(s[2..6])
    && !(0xD800 <= HexValue(s[2..6]) <= 0xDFFF)
  }

  /** A `%XX` escape. */
  predicate IsByteEscape(s: string) {
    |s| >= 3 && s[0] == '%' && IsHexDigit(s[1]) && IsHexDigit(s[2])
  }

  /** JavaScript `unescape`: `%uXXXX` and `%XX` become the character with that
      code; every other character, a `%` that starts no escape included, is kept. */
  function Unescape(s: string): (r: string)
    ensures |r| <= |s|
    decreases |s|
  {
    if s == [] then []
    else if IsUnicodeEscape(s) then
      assert Pow16(4) == 0x10000;
      [HexValue(s[2..6]) as char] + Unescape(s[6..])
    else if IsByteEscape(s) then
      assert s[1..3] == [s[1], s[2]] && AllHex(s[1..3]);
      assert Pow16(2) == 256;
      [HexValue(s[1..3]) as char] + Unescape(s[3..])
    else [s[0]] + Unescape(s[1..])
  }

  /** Text without `%` has nothing to unescape. */
  lemma {:induction false} UnescapePlain(s: string)
    requires '%' !in s
    ensures Unescape(s) == s
  {
    if s != [] {
      UnescapePlain(s[1..]);
    }
  }

  /** The escape this model uses to put any text into a parameter value: `%`
      and `&` are written as `%25` and `%26`, everything else as it is. */
  function Escape(s: string): (r: string)
    ensures '&' !in r
  {
    if s == [] then []
    else
      (if s[0] == '%' then "%25" else if s[0] == '&' then "%26" else [s[0]]) + Escape(s[1..])
  }

  /** `unescape` undoes `Escape`. */
  lemma {:induction false} UnescapeEscape(s: string)
    ensures Unescape(Escape(s)) == s
  {
    if s != [] {
      UnescapeEscape(s[1..]);
      var e := Escape(s);
      var rest := Escape(s[1..]);
      if s[0] == '%' || s[0] == '&' {
        var head := if s[0] == '%' then "%25" else "%26";
        assert e == head + rest;
        assert !IsUnicodeEscape(e);
        assert IsByteEscape(e);
        assert e[1..3] == head[1..3];
        assert HexValue(e[1..3]) == s[0] as int;
        assert e[3..] == rest;
      } else {
        assert e == [s[0]] + rest;
        assert e[1..] == rest;
      }
    }
  }

  // ---------------------------------------------------------------------------
  // getQueryString

  /** ASCII case-insensitive equality, as the `i` flag compares letters. */
  predicate SameIgnoringCase(a: string, b: string) {
    Lower(a) == Lower(b)
  }

  /** `(^|&)name=` matches with `name=` starting at `q`. */
  predicate NameAt(query: string, name: string, q: int) {
    && 0 <= q && q + |name| + 1 <= |query|
    && (q == 0 || query[q - 1] == '&')
    && SameIgnoringCase(query[q..q + |name|], name)
    && query[q + |name|] == '='
  }

  /** The leftmost match at or after `from`. */
  function FirstNameAt(query: string, name: string, from: nat): (r: Option<nat>)
    ensures r.Some? ==> from <= r.value && NameAt(query, name, r.value)
    ensures r.Some? ==> forall k :: from <= k < r.value ==> !NameAt(query, name, k)
    ensures r.None? ==> forall k :: from <= k ==> !NameAt(query, name, k)
    decreases |query| - from
  {
    if from + |name| + 1 > |query| then None
    else if NameAt(query, name, from) then Some(from)
    else FirstNameAt(query, name, from + 1)
  }

  /** `[^&]*`: the longest prefix without `&`. */
  function UpToAmpersand(s: string): (r: string)
    ensures |r| <= |s| && r == s[..|r|] && '&' !in r
    ensures |r| < |s| ==> s[|r|] == '&'
  {
    if s == [] || s[0] == '&' then []
    else [s[0]] + UpToAmpersand(s[1..])
  }

  /** `getQueryString(name)` for the search part `search` of the page address:
      the unescaped value of the first parameter called `name` (compared without
      regard to ASCII case), or nothing when there is none. */
  function GetQueryString(search: string, name: string): (r: Option<string>)
    ensures var query := if search == [] then [] else search[1..];
      r.None? <==> forall q :: !NameAt(query, name, q)
  {
    // `substr(1)` drops the leading `?`
    var query := if search == [] then [] else search[1..];
    match FirstNameAt(query, name, 0)
    case None => None
    case Some(q) => Some(Unescape(UpToAmpersand(query[q + |name| + 1..])))
  }

  /** A value found is the unescaped text between the leftmost `name=` that
      starts the query or follows an `&`, and the next `&` or the end. */
  lemma GetQueryStringFound(search: string, name: string)
    requires GetQueryString(search, name).Some?
    ensures var query := if search == [] then [] else search[1..];
      exists q ::
        && NameAt(query, name, q)
        && (forall k :: 0 <= k < q ==> !NameAt(query, name, k))
        && GetQueryString(search, name).value == Unescape(UpToAmpersand(query[q + |name| + 1..]))
  {
    var query := if search == [] then [] else search[1..];
    var first := FirstNameAt(query, name, 0);
    assert first.Some?;
    var q := first.value;
    assert GetQueryString(search, name).value == Unescape(UpToAmpersand(query[q + |name| + 1..]));
    assert NameAt(query, name, q) && forall k :: 0 <= k < q ==> !NameAt(query, name, k);
  }

  /** A parameter written first with its value escaped is read back exactly,
      whatever parameters follow it. */
  lemma QueryStringRoundTrip(name: string, value: string, rest: string)
    ensures GetQueryString("?" + name + "=" + Escape(value) + "&" + rest, name) == Some(value)
  {
    FirstValueBeforeAmpersand(name, Escape(value), rest);
    UnescapeEscape(value);
  }

  lemma FirstValueBeforeAmpersand(name: string, e: string, rest: string)
    requires '&' !in e
    ensures GetQueryString("?" + name + "=" + e + "&" + rest, name) == Some(Unescape(e))
  {
    var query := ("?" + name + "=" + e + "&" + rest)[1..];
    assert query == name + "=" + e + "&" + rest;
    assert query[..|name|] == name;
    assert NameAt(query, name, 0);
    assert query[|name| + 1..] == e + ("&" + rest);
    UpToAmpersandStops(e, "&" + rest);
  }

  /** The same when it is the only parameter. */
  lemma QueryStringRoundTripAlone(name: string, value: string)
    ensures GetQueryString("?" + name + "=" + Escape(value), name) == Some(value)
  {
    var e := Escape(value);
    FirstParameterRead(name, e);
    UpToAmpersandStops(e, "");
    assert e + "" == e;
    UnescapeEscape(value);
  }

  /** The first parameter is the one read when it carries the name. */
  lemma FirstParameterRead(name: string, tail: string)
    ensures GetQueryString("?" + name + "=" + tail, name) == Some(Unescape(UpToAmpersand(tail)))
  {
    var s := "?" + name + "=" + tail;
    var query := s[1..];
    assert query == name + "=" + tail;
    assert query[..|name|] == name;
    assert NameAt(query, name, 0);
    assert query[|name| + 1..] == tail;
  }

  lemma UpToAmpersandStops(a: string, b: string)
    requires '&' !in a && (b == [] || b[0] == '&')
    ensures UpToAmpersand(a + b) == a
  {
    if a != [] {
      assert (a + b)[1..] == a[1..] + b;
      UpToAmpersandStops(a[1..], b);
    } else {
      assert a + b == b;
    }
  }
}
