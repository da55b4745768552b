/** Value types and string and sequence helpers shared by the component models.
    The JavaScript string builtins used by the system (`substring`, `includes`,
    `trim`, `toLowerCase`) are modelled here once. */
module Common {

  datatype Option<T> = None | Some(value: T)

  /** A computation that either yields a value or fails with an error message
      (a thrown JavaScript `Error` and its `message`). */
  datatype Result<T> = Ok(value: T) | Err(message: string)

  /** One entry of the static site's `catalogue.json`. */
  datatype CatalogueItem = CatalogueItem(date: string, abstractText: string)

  /** The position of the first entry with date `d` (`|catalogue|` when there is none). */
  function FirstWithDate(catalogue: seq<CatalogueItem>, d: string): (k: nat)
    ensures k <= |catalogue|
    ensures k < |catalogue| ==> catalogue[k].date == d
    ensures forall j :: 0 <= j < k ==> catalogue[j].date != d
  {
    if catalogue == [] then 0
    else if catalogue[0].date == d then 0
    else 1 + FirstWithDate(catalogue[1..], d)
  }

  /** In a prefix, the first entry with a date is the first of the whole, if the prefix reaches it. */
  lemma FirstWithDateOfPrefix(catalogue: seq<CatalogueItem>, n: nat, d: string)
    requires n <= |catalogue|
    ensures FirstWithDate(catalogue[..n], d) == Min(FirstWithDate(catalogue, d), n)
  {
    var k := FirstWithDate(catalogue, d);
    var m := FirstWithDate(catalogue[..n], d);
    if m < n {
      assert catalogue[..n][m] == catalogue[m];
    }
    if k < n {
      assert catalogue[..n][k].date == d;
    }
  }

  /** How a batch script counts one item. */
  datatype Verdict = Succeeded | Skipped | Failed

  /** The `successCount`, `skipCount` and `failCount` of a batch script. */
  datatype Tally = Tally(success: nat, skip: nat, fail: nat) {
    function Total(): nat { success + skip + fail }
  }

  /** One more item counted under `v`. */
  function Count(t: Tally, v: Verdict): (r: Tally)
    ensures r.Total() == t.Total() + 1
  {
    match v
    case Succeeded => t.(success := t.success + 1)
    case Skipped => t.(skip := t.skip + 1)
    case Failed => t.(fail := t.fail + 1)
  }

  function Min(a: int, b: int): int { if a <= b then a else b }

  function Max(a: int, b: int): int { if a <= b then b else a }

  /** JavaScript `s.substring(from, to)` for `from <= to`: both ends are clamped to the length. */
  function Substring(s: string, from: nat, to: nat): (r: string)
    requires from <= to
    ensures |r| == Min(to, |s|) - Min(from, |s|)
    ensures to <= |s| ==> r == s[from..to]
  {
    s[Min(from, |s|)..Min(to, |s|)]
  }

  /** `${s.substring(0, 4)}-${s.substring(4, 6)}-${s.substring(6, 8)}`: a
      `YYYYMMDD` date written `YYYY-MM-DD`. The crawler, the batch script and
      the two `formatDate` helpers all use this same expression. */
  function DashDate(s: string): (r: string)
    ensures |r| == Min(|s|, 8) + 2 && r[Min(|s|, 4)] == '-' && r[Min(|s|, 6) + 1] == '-'
    ensures |s| == 8 ==> r[..4] + r[5..7] + r[8..] == s
  {
    var r := Substring(s, 0, 4) + "-" + Substring(s, 4, 6) + "-" + Substring(s, 6, 8);
    assert |s| == 8 ==> r[..4] == s[..4] && r[5..7] == s[4..6] && r[8..] == s[6..8];
    assert |s| == 8 ==> s[..4] + s[4..6] + s[6..8] == s;
    r
  }

  predicate IsPrefix(p: string, s: string) {
    |p| <= |s| && s[..|p|] == p
  }

  /** JavaScript `s.includes(sub)`. */
  predicate Contains(s: string, sub: string)
    decreases |s|
  {
    IsPrefix(sub, s) || (s != [] && Contains(s[1..], sub))
  }

  /** `sub` occurs in `s` starting at position `k`. */
  predicate OccursAt(s: string, sub: string, k: int) {
    0 <= k <= |s| - |sub| && s[k..k + |sub|] == sub
  }

  /** `Contains` holds exactly when `sub` occurs at some position of `s`. */
  lemma {:induction false} ContainsAt(s: string, sub: string)
    ensures Contains(s, sub) <==> exists k :: OccursAt(s, sub, k)
  {
    if s != [] {
      ContainsAt(s[1..], sub);
      if Contains(s[1..], sub) && !IsPrefix(sub, s) {
        var k :| OccursAt(s[1..], sub, k);
        assert OccursAt(s, sub, k + 1);
      }
      if !IsPrefix(sub, s) && exists k :: OccursAt(s, sub, k) {
        var k :| OccursAt(s, sub, k);
        assert k != 0;
        assert OccursAt(s[1..], sub, k - 1);
      }
      if IsPrefix(sub, s) {
        assert OccursAt(s, sub, 0);
      }
    } else {
      if exists k :: OccursAt(s, sub, k) {
        var k :| OccursAt(s, sub, k);
        assert sub == [];
      }
      if IsPrefix(sub, s) {
        assert OccursAt(s, sub, 0);
      }
    }
  }

  /** The characters JavaScript's `trim` removes: WhiteSpace (tab, vertical tab,
      form feed, space, no-break space, byte order mark and the Unicode space
      separators) and LineTerminator (LF, CR, U+2028, U+2029). */
  predicate IsJsWhitespace(c: char) {
    var u := c as int;
    u == 0x09 || u == 0x0A || u == 0x0B || u == 0x0C || u == 0x0D || u == 0x20
    || u == 0xA0 || u == 0x1680 || (0x2000 <= u <= 0x200A)
    || u == 0x2028 || u == 0x2029 || u == 0x202F || u == 0x205F
    || u == 0x3000 || u == 0xFEFF
  }

  /** Every character of `s` is one `trim` removes. */
  predicate AllWhitespace(s: string) {
    forall i :: 0 <= i < |s| ==> IsJsWhitespace(s[i])
  }

  function TrimStart(s: string): (r: string)
    ensures |r| <= |s| && r == s[|s| - |r|..]
    ensures r == [] || !IsJsWhitespace(r[0])
  {
    if s != [] && IsJsWhitespace(s[0]) then TrimStart(s[1..]) else s
  }

  function TrimEnd(s: string): (r: string)
    ensures |r| <= |s| && r == s[..|r|]
    ensures r == [] || !IsJsWhitespace(r[|r| - 1])
  {
    if s != [] && IsJsWhitespace(s[|s| - 1]) then TrimEnd(s[..|s| - 1]) else s
  }

  /** `TrimStart` removes whitespace only. */
  lemma {:induction false} TrimStartRemovesWhitespace(s: string)
    ensures AllWhitespace(s[..|s| - |TrimStart(s)|])
  {
    if s != [] && IsJsWhitespace(s[0]) {
      TrimStartRemovesWhitespace(s[1..]);
      var k := |s| - |TrimStart(s)|;
      assert forall i :: 1 <= i < k ==> s[..k][i] == s[1..][..k - 1][i - 1];
    }
  }

  /** `TrimEnd` removes whitespace only. */
  lemma {:induction false} TrimEndRemovesWhitespace(s: string)
    ensures AllWhitespace(s[|TrimEnd(s)|..])
  {
    if s != [] && IsJsWhitespace(s[|s| - 1]) {
      TrimEndRemovesWhitespace(s[..|s| - 1]);
      var k := |TrimEnd(s)|;
      assert forall i :: k <= i < |s| - 1 ==> s[i] == s[..|s| - 1][i];
    }
  }

  /** JavaScript `s.trim()`: `s` without its leading and trailing whitespace. */
  function Trim(s: string): (r: string)
    ensures |r| <= |s|
    ensures r == [] || (!IsJsWhitespace(r[0]) && !IsJsWhitespace(r[|r| - 1]))
  {
    TrimEnd(TrimStart(s))
  }

  /** What `trim` keeps is one stretch of the string, and all it drops is whitespace. */
  lemma TrimInfix(s: string)
    ensures OccursAt(s, Trim(s), |s| - |TrimStart(s)|)
    ensures AllWhitespace(s[..|s| - |TrimStart(s)|])
    ensures AllWhitespace(s[|s| - |TrimStart(s)| + |Trim(s)|..])
  {
    var t := TrimStart(s);
    var r := TrimEnd(t);
    var k := |s| - |t|;
    assert OccursAt(s, r, k) by {
      assert s[k..] == t;
      assert s[k..k + |r|] == t[..|r|];
    }
    assert AllWhitespace(s[..k]) by {
      TrimStartRemovesWhitespace(s);
    }
    assert AllWhitespace(s[k + |r|..]) by {
      TrimEndRemovesWhitespace(t);
      assert s[k..] == t;
      assert s[k + |r|..] == t[|r|..];
    }
  }

  /** `trim` leaves nothing exactly when the string is all whitespace. */
  lemma TrimEmpty(s: string)
    ensures Trim(s) == [] <==> AllWhitespace(s)
  {
    var t := TrimStart(s);
    var r := TrimEnd(t);
    TrimStartRemovesWhitespace(s);
    TrimEndRemovesWhitespace(t);
    if r == [] {
      assert s == s[..|s| - |t|] + t[|r|..];
    } else {
      assert !IsJsWhitespace(s[|s| - |t|]);
    }
  }

  function LowerChar(c: char): char {
    if 'A' <= c <= 'Z' then (c as int + 32) as char else c
  }

  /** `s.toLowerCase()` restricted to the ASCII letters: every other character is kept. */
  function Lower(s: string): (r: string)
    ensures |r| == |s| && forall i :: 0 <= i < |s| ==> r[i] == LowerChar(s[i])
    ensures forall i :: 0 <= i < |r| ==> !('A' <= r[i] <= 'Z')
    ensures forall i :: 0 <= i < |s| && !('A' <= s[i] <= 'Z') ==> r[i] == s[i]
  {
    seq(|s|, i requires 0 <= i < |s| => LowerChar(s[i]))
  }

  /** Lower-casing twice is lower-casing once. */
  lemma LowerIdempotent(s: string)
    ensures Lower(Lower(s)) == Lower(s)
  {
    var t := Lower(s);
    assert forall i :: 0 <= i < |t| ==> LowerChar(t[i]) == t[i];
  }

  /** `s.replaceAll(c, d)` for single characters. */
  function ReplaceChar(s: string, c: char, d: char): (r: string)
    ensures |r| == |s|
    ensures forall i :: 0 <= i < |s| ==> r[i] == (if s[i] == c then d else s[i])
    ensures c != d ==> c !in r
    ensures c !in s ==> r == s
  {
    seq(|s|, i requires 0 <= i < |s| => if s[i] == c then d else s[i])
  }

  /** After `replaceAll(c, d)` with `c != d`, every former `c` is counted as a `d`. */
  lemma {:induction false} ReplaceCharCount(s: string, c: char, d: char)
    requires c != d
    ensures CountChar(ReplaceChar(s, c, d), d) == CountChar(s, c) + CountChar(s, d)
    ensures CountChar(ReplaceChar(s, c, d), c) == 0
  {
    if s != [] {
      ReplaceCharCount(s[1..], c, d);
      assert ReplaceChar(s, c, d)[1..] == ReplaceChar(s[1..], c, d);
    }
  }

  /** Number of occurrences of `c` in `s`. */
  function CountChar(s: string, c: char): nat {
    if s == [] then 0 else (if s[0] == c then 1 else 0) + CountChar(s[1..], c)
  }

  // ---------------------------------------------------------------------------
  // Order-preserving selections

  /** `idx` embeds `a` into `b`: strictly increasing positions of `b` holding the elements of `a`. */
  ghost predicate Embeds<T>(idx: seq<nat>, a: seq<T>, b: seq<T>) {
    && |idx| == |a|
    && (forall i :: 0 <= i < |idx| ==> idx[i] < |b| && a[i] == b[idx[i]])
    && (forall i, j :: 0 <= i < j < |idx| ==> idx[i] < idx[j])
  }

  /** An embedding into all of `b` but its last element extends to `b`, with or
      without that element. */
  lemma EmbedsSnoc<T>(idx: seq<nat>, a: seq<T>, b: seq<T>)
    requires b != [] && Embeds(idx, a, b[..|b| - 1])
    ensures Embeds(idx, a, b)
    ensures Embeds(idx + [|b| - 1], a + [b[|b| - 1]], b)
  {
    var n := |b| - 1;
    forall i | 0 <= i < |idx|
      ensures idx[i] < n && a[i] == b[idx[i]]
    {
      assert b[..n][idx[i]] == b[idx[i]];
    }
  }

  /** `a` is `b` with some elements left out and the rest kept in order. */
  ghost predicate IsSubsequence<T>(a: seq<T>, b: seq<T>) {
    exists idx: seq<nat> :: Embeds(idx, a, b)
  }

  /** Every sequence embeds into itself, position for position. */
  lemma IdentityEmbeds<T>(s: seq<T>)
    ensures Embeds(seq(|s|, i requires 0 <= i < |s| => i), s, s)
    ensures IsSubsequence(s, s)
  {
    var idx: seq<nat> := seq(|s|, i requires 0 <= i < |s| => i);
    assert Embeds(idx, s, s);
  }

  /** JavaScript `s.map(f)`: `f` applied to each element, in order. */
  function Map<T, U>(s: seq<T>, f: T -> U): (r: seq<U>)
    ensures |r| == |s|
    ensures forall i :: 0 <= i < |s| ==> r[i] == f(s[i])
  {
    if s == [] then [] else Map(s[..|s| - 1], f) + [f(s[|s| - 1])]
  }

  /** Mapping one more element appends its image. */
  lemma MapSnoc<T, U>(s: seq<T>, f: T -> U, i: nat)
    requires i < |s|
    ensures Map(s[..i + 1], f) == Map(s[..i], f) + [f(s[i])]
  {
    assert s[..i + 1][..i] == s[..i];
  }

  /** JavaScript `s.filter(p)`: the elements satisfying `p`, in order. */
  function Filter<T>(s: seq<T>, p: T -> bool): (r: seq<T>)
    ensures |r| <= |s|
    ensures forall x :: x in r ==> p(x)
  {
    if s == [] then [] else Filter(s[..|s| - 1], p) + (if p(s[|s| - 1]) then [s[|s| - 1]] else [])
  }

  /** What `Filter` keeps: exactly the elements of `s` that satisfy `p`. */
  lemma {:induction false} FilterMembership<T>(s: seq<T>, p: T -> bool, x: T)
    ensures x in Filter(s, p) <==> x in s && p(x)
  {
    if s != [] {
      FilterMembership(s[..|s| - 1], p, x);
      assert s == s[..|s| - 1] + [s[|s| - 1]];
    }
  }

  /** `Filter` keeps the order of what it keeps. */
  lemma {:induction false} FilterIsSubsequence<T>(s: seq<T>, p: T -> bool)
    ensures IsSubsequence(Filter(s, p), s)
  {
    var idx := FilterEmbedding(s, p);
  }

  lemma {:induction false} FilterEmbedding<T>(s: seq<T>, p: T -> bool) returns (idx: seq<nat>)
    ensures Embeds(idx, Filter(s, p), s)
  {
    if s == [] {
      idx := [];
    } else {
      var last := |s| - 1;
      var front := FilterEmbedding(s[..last], p);
      EmbedsSnoc(front, Filter(s[..last], p), s);
      if p(s[last]) {
        idx := front + [last];
      } else {
        idx := front;
      }
    }
  }

  /** A predicate that holds everywhere keeps everything. */
  lemma {:induction false} FilterAll<T>(s: seq<T>, p: T -> bool)
    requires forall x :: x in s ==> p(x)
    ensures Filter(s, p) == s
  {
    if s != [] {
      FilterAll(s[..|s| - 1], p);
      assert s == s[..|s| - 1] + [s[|s| - 1]];
    }
  }
}
