/** The string operations of the Rust standard library that the modelled code calls. */
module Text {
  import opened Wrappers

  /** `pat` occurs in `s` at position `i`. */
  predicate OccursAt(s: string, pat: string, i: nat) {
    i <= |s| && pat <= s[i..]
  }

  /** `str::find`: the first position of `pat` in `s`. */
  function Find(s: string, pat: string): (r: Option<nat>)
    ensures r.Some? ==> r.value + |pat| <= |s|
  {
    if pat <= s then Some(0)
    else if s == [] then None
    else
      match Find(s[1..], pat)
      case None => None
      case Some(i) => Some(i + 1)
  }

  lemma OccursInTail(s: string, pat: string, j: nat)
    requires 0 < j <= |s|
    ensures OccursAt(s, pat, j) <==> OccursAt(s[1..], pat, j - 1)
  {
    assert s[j..] == s[1..][j - 1..];
  }

  lemma {:induction false} FindIsFirst(s: string, pat: string)
    ensures Find(s, pat).Some? ==> OccursAt(s, pat, Find(s, pat).value)
    ensures Find(s, pat).Some? ==> forall j: nat :: j < Find(s, pat).value ==> !OccursAt(s, pat, j)
    ensures Find(s, pat).None? ==> forall j: nat :: !OccursAt(s, pat, j)
  {
    assert s[0..] == s;
    if !(pat <= s) && s != [] {
      FindIsFirst(s[1..], pat);
      forall j: nat | 0 < j <= |s|
        ensures OccursAt(s, pat, j) <==> OccursAt(s[1..], pat, j - 1)
      {
        OccursInTail(s, pat, j);
      }
    }
  }

  /** An occurrence, character by character. */
  lemma OccursChars(s: string, pat: string, i: nat)
    ensures OccursAt(s, pat, i) <==> i + |pat| <= |s| && forall k :: 0 <= k < |pat| ==> s[i + k] == pat[k]
  {
    if i <= |s| {
      assert forall k :: 0 <= k < |s| - i ==> s[i..][k] == s[i + k];
    }
  }

  lemma FindIs(s: string, pat: string, i: nat)
    requires OccursAt(s, pat, i) && forall j: nat :: j < i ==> !OccursAt(s, pat, j)
    ensures Find(s, pat) == Some(i)
  {
    FindIsFirst(s, pat);
  }

  lemma OccursShift(a: string, s: string, pat: string, j: nat)
    ensures OccursAt(a + s, pat, |a| + j) <==> OccursAt(s, pat, j)
  {
    if j <= |s| {
      assert (a + s)[|a| + j..] == s[j..];
    }
  }

  lemma {:induction false} NoneBefore(a: string, s: string, pat: string, j: nat)
    requires Find(s, pat).Some?
    requires forall k: nat :: k < |a| ==> !OccursAt(a + s, pat, k)
    requires j < |a| + Find(s, pat).value
    ensures !OccursAt(a + s, pat, j)
  {
    if j >= |a| {
      FindIsFirst(s, pat);
      OccursShift(a, s, pat, j - |a|);
    }
  }

  lemma {:induction false} FirstAfterPrefix(a: string, s: string, pat: string, i: nat)
    requires Find(s, pat) == Some(i)
    requires forall j: nat :: j < |a| ==> !OccursAt(a + s, pat, j)
    ensures OccursAt(a + s, pat, |a| + i) && (a + s)[|a| + i..] == s[i..]
    ensures forall j: nat :: j < |a| + i ==> !OccursAt(a + s, pat, j)
  {
    FindIsFirst(s, pat);
    OccursShift(a, s, pat, i);
    forall j: nat | j < |a| + i ensures !OccursAt(a + s, pat, j) {
      NoneBefore(a, s, pat, j);
    }
  }

  /** A prefix in which the pattern does not start only shifts the result. */
  lemma {:induction false} FindShift(a: string, s: string, pat: string)
    requires Find(s, pat).Some?
    requires forall j: nat :: j < |a| ==> !OccursAt(a + s, pat, j)
    ensures Find(a + s, pat) == Some(|a| + Find(s, pat).value)
    ensures (a + s)[Find(a + s, pat).value..] == s[Find(s, pat).value..]
  {
    FindShiftTo(a, s, pat, Find(s, pat).value);
  }

  lemma {:induction false} FindShiftTo(a: string, s: string, pat: string, i: nat)
    requires Find(s, pat) == Some(i)
    requires forall j: nat :: j < |a| ==> !OccursAt(a + s, pat, j)
    ensures i <= |s| && Find(a + s, pat) == Some(|a| + i) && (a + s)[|a| + i..] == s[i..]
  {
    FirstAfterPrefix(a, s, pat, i);
    FindIs(a + s, pat, |a| + i);
  }

  /** The first occurrence of a character. */
  lemma FindChar(a: string, c: char, s: string)
    requires c !in a
    ensures Find(a + [c] + s, [c]) == Some(|a|)
  {
    var h := a + [c] + s;
    OccursChars(h, [c], |a|);
    forall j: nat | j < |a| ensures !OccursAt(h, [c], j) {
      OccursChars(h, [c], j);
      assert h[j] == a[j];
    }
    FindIs(h, [c], |a|);
  }

  /** `char::is_whitespace`: the Unicode White_Space characters. */
  predicate IsWhitespace(c: char) {
    || '\U{0009}' <= c <= '\U{000d}' || c == ' ' || c == '\U{0085}' || c == '\U{00a0}' || c == '\U{1680}'
    || '\U{2000}' <= c <= '\U{200a}' || c == '\U{2028}' || c == '\U{2029}' || c == '\U{202f}' || c == '\U{205f}'
    || c == '\U{3000}'
  }

  function TrimStart(s: string): string {
    if s != [] && IsWhitespace(s[0]) then TrimStart(s[1..]) else s
  }

  function TrimEnd(s: string): string {
    if s != [] && IsWhitespace(s[|s| - 1]) then TrimEnd(s[..|s| - 1]) else s
  }

  function Trim(s: string): string {
    TrimEnd(TrimStart(s))
  }

  /** `str::trim_start_matches` with a character pattern. */
  function TrimStartChar(s: string, c: char): string {
    if s != [] && s[0] == c then TrimStartChar(s[1..], c) else s
  }

  function TrimEndChar(s: string, c: char): string {
    if s != [] && s[|s| - 1] == c then TrimEndChar(s[..|s| - 1], c) else s
  }

  /** `str::split` with a character pattern: always at least one piece. */
  function Split(s: string, c: char): (r: seq<string>)
    ensures |r| >= 1
  {
    if s == [] then [[]]
    else if s[0] == c then [[]] + Split(s[1..], c)
    else
      var rest := Split(s[1..], c);
      [[s[0]] + rest[0]] + rest[1..]
  }

  function LowerChar(c: char): char {
    if 'A' <= c <= 'Z' then c - 'A' + 'a' else c
  }

  /** `str::to_ascii_lowercase`. */
  function ToAsciiLowercase(s: string): string {
    seq(|s|, i requires 0 <= i < |s| => LowerChar(s[i]))
  }

  /** The capitals of ASCII become small letters, 32 codes up; everything else stays. */
  lemma LowercaseIs(s: string, i: nat)
    requires i < |s|
    ensures |ToAsciiLowercase(s)| == |s|
    ensures ToAsciiLowercase(s)[i] as int == s[i] as int + if 65 <= s[i] as int <= 90 then 32 else 0
  {
  }

  predicate EndsWith(s: string, suffix: string) {
    |suffix| <= |s| && s[|s| - |suffix|..] == suffix
  }

  lemma EndsWithExactlyWhen(s: string, suffix: string)
    ensures EndsWith(s, suffix) <==> exists head: string :: head + suffix == s
  {
    if EndsWith(s, suffix) {
      assert s[..|s| - |suffix|] + suffix == s;
    }
  }

  predicate AllWhitespace(s: string) {
    forall i :: 0 <= i < |s| ==> IsWhitespace(s[i])
  }

  /** Trimming takes the whitespace around a text and nothing else. */
  lemma {:induction false} TrimTakesWhitespace(before: string, s: string, after: string)
    requires AllWhitespace(before) && AllWhitespace(after)
    requires s == "" || (!IsWhitespace(s[0]) && !IsWhitespace(s[|s| - 1]))
    ensures Trim(before + s + after) == s
  {
    if before != "" {
      TrimTakesWhitespace(before[1..], s, after);
      assert (before + s + after)[1..] == before[1..] + s + after;
    } else if s == "" {
      TrimOfWhitespace(after);
      assert before + s + after == after;
    } else {
      assert before + s + after == s + after;
      TrimEndOf(s, after);
    }
  }

  lemma {:induction false} TrimEndOf(s: string, after: string)
    requires s != "" && !IsWhitespace(s[|s| - 1]) && AllWhitespace(after)
    ensures TrimEnd(s + after) == s
  {
    if after == "" {
      assert s + after == s;
    } else {
      TrimEndOf(s, after[..|after| - 1]);
      assert (s + after)[..|s + after| - 1] == s + after[..|after| - 1];
    }
  }

  lemma {:induction false} TrimOfWhitespace(s: string)
    requires AllWhitespace(s)
    ensures Trim(s) == ""
  {
    if s != "" {
      TrimOfWhitespace(s[1..]);
    }
  }

  lemma {:induction false} TrimEndKeeps(s: string)
    requires s != "" && !IsWhitespace(s[0])
    ensures TrimEnd(s) != ""
  {
    if |s| > 1 && IsWhitespace(s[|s| - 1]) {
      TrimEndKeeps(s[..|s| - 1]);
    }
  }

  /** Nothing is left exactly of whitespace. */
  lemma {:induction false} TrimIsEmptyExactlyWhen(s: string)
    ensures Trim(s) == "" <==> AllWhitespace(s)
  {
    if s != "" {
      if IsWhitespace(s[0]) {
        TrimIsEmptyExactlyWhen(s[1..]);
        assert forall i :: 0 < i < |s| ==> s[i] == s[1..][i - 1];
      } else {
        TrimEndKeeps(s);
      }
    }
  }

  lemma TrimUnchanged(s: string)
    requires s == [] || (!IsWhitespace(s[0]) && !IsWhitespace(s[|s| - 1]))
    ensures Trim(s) == s && Trim(" " + s) == s
  {
    assert (" " + s)[1..] == s;
  }

  lemma {:induction false} SplitNone(w: string, c: char)
    requires c !in w
    ensures Split(w, c) == [w]
  {
    if w != [] {
      assert w[0] in w && forall x <- w[1..] :: x in w;
      SplitNone(w[1..], c);
      assert w == [w[0]] + w[1..];
    }
  }

  lemma {:induction false} SplitFirst(w: string, c: char, rest: string)
    requires c !in w
    ensures Split(w + [c] + rest, c) == [w] + Split(rest, c)
  {
    var s := w + [c] + rest;
    if w == [] {
      assert s[1..] == rest;
    } else {
      assert w[0] in w && forall x <- w[1..] :: x in w;
      SplitFirst(w[1..], c, rest);
      assert s[1..] == w[1..] + [c] + rest;
      assert w == [w[0]] + w[1..];
    }
  }
}
