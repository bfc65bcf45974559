/** Removing tokens from subprocess output before it is printed
    (crates/diar-core/src/provision/exporter.rs). */
module Redaction {
  import opened Wrappers
  import opened Text

  const MASK: string := "***REDACTED***"
  const WORD: string := "REDACTED"
  const PREFIX: string := "hf_"

  predicate IsTokenChar(c: char) {
    'a' <= c <= 'z' || 'A' <= c <= 'Z' || '0' <= c <= '9' || c == '_'
  }

  /** The length of the run of token characters at the front. */
  function RunLength(s: string): (n: nat)
    ensures n <= |s|
  {
    if s != [] && IsTokenChar(s[0]) then 1 + RunLength(s[1..]) else 0
  }

  /** What is taken from a text that starts with `hf_`: the whole run if it is longer than 12
      characters, else the three characters of the prefix. */
  function Taken(tail: string): (n: nat)
    requires |tail| >= 3
    ensures 3 <= n <= |tail|
  {
    if RunLength(tail) > 12 then RunLength(tail) else 3
  }

  /** What `redact_tokenish` returns. */
  function Redact(s: string): string
    decreases |s|
  {
    match Find(s, PREFIX)
    case None => s
    case Some(i) =>
      var n := Taken(s[i..]);
      s[..i] + (if n > 12 then MASK else PREFIX) + Redact(s[i..][n..])
  }

  function CharLen(c: char): nat {
    if c < '\U{0080}' then 1 else if c < '\U{0800}' then 2 else if c < '\U{10000}' then 3 else 4
  }

  /** The length in UTF-8 bytes. */
  function Utf8Len(s: string): nat {
    if s == [] then 0 else CharLen(s[0]) + Utf8Len(s[1..])
  }

  /** `str::replace`: leftmost occurrences, not overlapping. */
  function Replace(s: string, from: string): string
    requires from != ""
    decreases |s|
  {
    match Find(s, from)
    case None => s
    case Some(i) => s[..i] + MASK + Replace(s[i + |from|..], from)
  }

  function Scrub(line: string, token: Option<string>): string {
    Redact(if token.Some? && Utf8Len(token.value) >= 6 then Replace(line, token.value) else line)
  }

  method RedactTokenish(s: string) returns (out: string)
    ensures out == Redact(s)
  {
    out := "";
    var rest := s;
    while Find(rest, PREFIX).Some?
      invariant out + Redact(rest) == Redact(s)
      decreases |rest|
    {
      var i := Find(rest, PREFIX).value;
      var head, tail := rest[..i], rest[i..];
      var end := RunLength(tail);
      OneTurn(out, rest);
      out := out + head;
      if end > 12 {
        out := out + MASK;
        rest := tail[end..];
      } else {
        out := out + tail[..3];
        rest := tail[3..];
      }
    }
    out := out + rest;
  }

  lemma {:induction false} Regroup(p: string, head: string, taken: string, rest: string)
    ensures p + (head + taken + rest) == p + head + taken + rest
  {
  }

  lemma FoundPrefix(s: string, i: nat)
    requires Find(s, PREFIX) == Some(i)
    ensures i + 3 <= |s| && s[i..][..3] == PREFIX && OccursAt(s, PREFIX, i)
  {
    FindIsFirst(s, PREFIX);
  }

  lemma {:induction false} OneTurn(out: string, s: string)
    requires Find(s, PREFIX).Some?
    ensures var i := Find(s, PREFIX).value;
            var tail := s[i..];
            && tail[..3] == PREFIX
            && out + Redact(s) == out + s[..i] + (if RunLength(tail) > 12 then MASK else tail[..3]) + Redact(tail[Taken(tail)..])
  {
    var i := Find(s, PREFIX).value;
    FoundPrefix(s, i);
    Regroup(out, s[..i], if Taken(s[i..]) > 12 then MASK else PREFIX, Redact(s[i..][Taken(s[i..])..]));
  }

  method ScrubLine(line: string, token: Option<string>) returns (out: string)
    ensures out == Scrub(line, token)
  {
    out := line;
    if token.Some? {
      if Utf8Len(token.value) >= 6 {
        out := Replace(line, token.value);
      }
    }
    out := RedactTokenish(out);
  }

  // ---------------------------------------------------------------- no long token is left

  /** No `hf_` begins a run of more than 12 token characters. */
  ghost predicate NoLongToken(s: string) {
    forall i: nat :: OccursAt(s, PREFIX, i) ==> RunLength(s[i..]) <= 12
  }

  lemma {:induction false} RunOfConcat(a: string, b: string)
    ensures RunLength(a + b) == if RunLength(a) == |a| then |a| + RunLength(b) else RunLength(a)
  {
    if a == "" {
      assert a + b == b;
    } else {
      RunOfConcat(a[1..], b);
      assert (a + b)[1..] == a[1..] + b;
    }
  }

  lemma RunOfPrefix()
    ensures RunLength(PREFIX) == 3
  {
    assert PREFIX[1..] == "f_" && "f_"[1..] == "_" && "_"[1..] == "";
    assert RunLength("_") == 1;
    assert RunLength("f_") == 2;
  }

  lemma RunOfMask(s: string)
    ensures RunLength(MASK + s) == 0
  {
    assert (MASK + s)[0] == '*';
  }

  ghost predicate Free(s: string, pat: string) {
    forall i: nat :: !OccursAt(s, pat, i)
  }

  /** One turn of the loop as a cut of the text: what precedes the first `hf_`, what is taken
      there, and the rest. */
  lemma {:induction false} Cut(s: string) returns (head: string, taken: string, rest: string)
    requires Find(s, PREFIX).Some?
    ensures s == head + taken + rest && |rest| < |s|
    ensures Redact(s) == head + (if |taken| > 12 then MASK else PREFIX) + Redact(rest)
    ensures Free(head, PREFIX) && Find(s, PREFIX) == Some(|head|)
    ensures |taken| <= 12 ==> taken == PREFIX && 3 + RunLength(rest) <= 12
    ensures |taken| > 12 ==> RunLength(taken + rest) == |taken|
  {
    var i := Find(s, PREFIX).value;
    var tail := s[i..];
    var n := Taken(tail);
    head, taken, rest := s[..i], tail[..n], tail[n..];
    FoundPrefix(s, i);
    assert tail == taken + rest && s == s[..i] + tail;
    HeadIsFree(s, PREFIX);
    if n <= 12 {
      RunAfterPrefix(rest);
    }
  }

  lemma RunAfterPrefix(rest: string)
    ensures RunLength(PREFIX + rest) == 3 + RunLength(rest)
  {
    RunOfPrefix();
    RunOfConcat(PREFIX, rest);
  }

  lemma {:induction false} HeadIsFree(s: string, pat: string)
    requires pat != "" && Find(s, pat).Some?
    ensures Free(s[..Find(s, pat).value], pat)
  {
    var i := Find(s, pat).value;
    FindIsFirst(s, pat);
    forall j: nat ensures !OccursAt(s[..i], pat, j) {
      OccursChars(s[..i], pat, j);
      OccursChars(s, pat, j);
    }
  }

  lemma {:induction false} RunOfMasked(head: string, taken: string, rest: string, rest': string)
    ensures RunLength(head + MASK + rest') <= RunLength(head + taken + rest)
  {
    RunOfMask(rest');
    RunOfConcat(head, MASK + rest');
    RunOfConcat(head, taken + rest);
    assert head + taken + rest == head + (taken + rest);
    assert head + MASK + rest' == head + (MASK + rest');
  }

  lemma {:induction false} RunOfKept(a: string, rest: string, rest': string)
    requires RunLength(rest') <= RunLength(rest)
    ensures RunLength(a + rest') <= RunLength(a + rest)
  {
    RunOfConcat(a, rest');
    RunOfConcat(a, rest);
  }

  // ---------------------------------------------------------------- exactly what is replaced

  ghost predicate FirstAt(s: string, pat: string, i: nat) {
    OccursAt(s, pat, i) && forall j: nat :: j < i ==> !OccursAt(s, pat, j)
  }

  predicate AllTokenChars(s: string) {
    forall i :: 0 <= i < |s| ==> IsTokenChar(s[i])
  }

  /** The codes of the ASCII digits, capitals, underscore and small letters. */
  lemma TokenCharsAre(c: char)
    ensures IsTokenChar(c) <==>
            48 <= c as int <= 57 || 65 <= c as int <= 90 || c as int == 95 || 97 <= c as int <= 122
  {
  }

  /** A run ends at the first other character, or at the end. */
  lemma {:induction false} RunIs(run: string, rest: string)
    requires AllTokenChars(run) && (rest == "" || !IsTokenChar(rest[0]))
    ensures RunLength(run + rest) == |run|
  {
    if run == "" {
      assert run + rest == rest;
    } else {
      RunIs(run[1..], rest);
      assert (run + rest)[1..] == run[1..] + rest;
    }
  }

  lemma SplitAt(head: string, mid: string, rest: string)
    ensures (head + mid + rest)[..|head|] == head && (head + mid + rest)[|head|..] == mid + rest
    ensures (mid + rest)[|mid|..] == rest
    ensures (head + mid + rest)[|head| + |mid|..] == rest
  {
  }

  /** A run of more than 12 characters that begins with the first `hf_` becomes the mask, whole; the
      text before it stays and the text behind it is redacted in turn. */
  lemma LongTokenIsMasked(head: string, token: string, rest: string)
    requires FirstAt(head + token + rest, PREFIX, |head|) && |token| > 12 && AllTokenChars(token)
    requires rest == "" || !IsTokenChar(rest[0])
    ensures Redact(head + token + rest) == head + MASK + Redact(rest)
  {
    FindIs(head + token + rest, PREFIX, |head|);
    SplitAt(head, token, rest);
    RunIs(token, rest);
    assert PREFIX <= token + rest;
  }

  /** With a run of at most 12 characters the first `hf_` stays, and what follows it is redacted. */
  lemma ShortRunIsKept(head: string, rest: string)
    requires FirstAt(head + PREFIX + rest, PREFIX, |head|) && RunLength(PREFIX + rest) <= 12
    ensures Redact(head + PREFIX + rest) == head + PREFIX + Redact(rest)
  {
    FindIs(head + PREFIX + rest, PREFIX, |head|);
    SplitAt(head, PREFIX, rest);
  }

  /** The first occurrence of the token becomes the mask, and the text behind it is done in turn. */
  lemma FirstIsReplaced(head: string, token: string, rest: string)
    requires token != "" && FirstAt(head + token + rest, token, |head|)
    ensures Replace(head + token + rest, token) == head + MASK + Replace(rest, token)
  {
    FindIs(head + token + rest, token, |head|);
    SplitAt(head, token, rest);
  }

  lemma NothingIsReplaced(s: string, token: string)
    requires token != "" && Free(s, token)
    ensures Replace(s, token) == s
  {
    FindIsFirst(s, token);
  }

  /** A given token is looked for exactly from six bytes on. */
  lemma ScrubIs(line: string, token: string)
    ensures Scrub(line, None) == Redact(line)
    ensures Utf8Len(token) < 6 ==> Scrub(line, Some(token)) == Redact(line)
    ensures Utf8Len(token) >= 6 ==> token != "" && Scrub(line, Some(token)) == Redact(Replace(line, token))
  {
  }

  /** One byte up to U+007F, two up to U+07FF, three up to U+FFFF, then four. */
  lemma Utf8LenOfOne(c: char)
    ensures Utf8Len([c]) == if c <= '\U{007f}' then 1 else if c <= '\U{07ff}' then 2 else if c as int <= 0xFFFF then 3 else 4
  {
    assert Utf8Len([c][1..]) == 0;
  }

  lemma {:induction false} Utf8LenAdds(a: string, b: string)
    ensures Utf8Len(a + b) == Utf8Len(a) + Utf8Len(b)
  {
    if a == "" {
      assert a + b == b;
    } else {
      Utf8LenAdds(a[1..], b);
      assert (a + b)[1..] == a[1..] + b;
    }
  }

  /** Redaction never lengthens the leading run. */
  lemma {:induction false} RedactShortensRun(s: string)
    ensures RunLength(Redact(s)) <= RunLength(s)
    decreases |s|
  {
    if Find(s, PREFIX).Some? {
      var head, taken, rest := Cut(s);
      if |taken| > 12 {
        RunOfMasked(head, taken, rest, Redact(rest));
      } else {
        RedactShortensRun(rest);
        RunOfKept(head + PREFIX, rest, Redact(rest));
      }
    }
  }

  /** An occurrence of `hf_` after `a` is one in `b`, when none starts inside `a`. */
  lemma {:induction false} NoLongAfter(a: string, b: string)
    requires forall j: nat :: j < |a| && OccursAt(a + b, PREFIX, j) ==> RunLength((a + b)[j..]) <= 12
    requires NoLongToken(b)
    ensures NoLongToken(a + b)
  {
    forall j: nat | OccursAt(a + b, PREFIX, j)
      ensures RunLength((a + b)[j..]) <= 12
    {
      if j >= |a| {
        OccursShift(a, b, PREFIX, j - |a|);
        assert (a + b)[j..] == b[j - |a|..];
      }
    }
  }

  lemma {:induction false} NoLongMasked(head: string, rest: string)
    requires Free(head, PREFIX) && NoLongToken(rest)
    ensures NoLongToken(head + MASK + rest)
  {
    var a := head + MASK;
    forall j: nat | j < |a|
      ensures !OccursAt(a + rest, PREFIX, j)
    {
      OccursChars(a + rest, PREFIX, j);
      OccursChars(head, PREFIX, j);
      if j < |head| {
        assert (a + rest)[|head|] == '*';
      } else {
        assert (a + rest)[j] == MASK[j - |head|] != 'h';
      }
    }
    NoLongAfter(a, rest);
  }

  lemma {:induction false} NoLongKept(head: string, rest: string)
    requires Find(head + PREFIX + rest, PREFIX) == Some(|head|)
    requires 3 + RunLength(rest) <= 12 && NoLongToken(rest)
    ensures NoLongToken(head + PREFIX + rest)
  {
    var a := head + PREFIX;
    FindIsFirst(a + rest, PREFIX);
    forall j: nat | j < |a| && OccursAt(a + rest, PREFIX, j)
      ensures RunLength((a + rest)[j..]) <= 12
    {
      OccursChars(a + rest, PREFIX, j);
      assert j >= |head| ==> (a + rest)[j] == PREFIX[j - |head|];
      assert j == |head|;
      assert (a + rest)[j..] == PREFIX + rest;
      RunOfConcat(PREFIX, rest);
      RunOfPrefix();
    }
    NoLongAfter(a, rest);
  }

  /** The first `hf_` of a text stays the first when what follows it changes. */
  lemma {:induction false} FirstStaysFirst(head: string, rest: string, rest': string)
    requires Find(head + PREFIX + rest, PREFIX) == Some(|head|)
    ensures Find(head + PREFIX + rest', PREFIX) == Some(|head|)
  {
    var s, s' := head + PREFIX + rest, head + PREFIX + rest';
    OccursChars(s', PREFIX, |head|);
    FindIsFirst(s, PREFIX);
    forall j: nat | j < |head| ensures !OccursAt(s', PREFIX, j) {
      OccursChars(s', PREFIX, j);
      OccursChars(s, PREFIX, j);
      assert forall k :: 0 <= k < |head| + 3 ==> s[k] == s'[k];
    }
    FindIs(s', PREFIX, |head|);
  }

  /** The output has no `hf_` that begins a run of more than 12 token characters. */
  lemma {:induction false} RedactLeavesNoLongToken(s: string)
    ensures NoLongToken(Redact(s))
    decreases |s|
  {
    if Find(s, PREFIX).Some? {
      var head, taken, rest := Cut(s);
      RedactLeavesNoLongToken(rest);
      if |taken| > 12 {
        NoLongMasked(head, Redact(rest));
      } else {
        RedactShortensRun(rest);
        FirstStaysFirst(head, rest, Redact(rest));
        NoLongKept(head, Redact(rest));
      }
    } else {
      NothingFound(s);
    }
  }

  lemma NothingFound(s: string)
    requires Find(s, PREFIX).None?
    ensures NoLongToken(s)
  {
    FindIsFirst(s, PREFIX);
  }

  lemma {:induction false} NoLongSuffix(a: string, b: string)
    requires NoLongToken(a + b)
    ensures NoLongToken(b)
  {
    forall j: nat | OccursAt(b, PREFIX, j) ensures RunLength(b[j..]) <= 12 {
      OccursShift(a, b, PREFIX, j);
      assert (a + b)[|a| + j..] == b[j..];
    }
  }

  lemma {:induction false} FirstRunIsShort(s: string, i: nat)
    requires NoLongToken(s) && Find(s, PREFIX) == Some(i)
    ensures i <= |s| && RunLength(s[i..]) <= 12
  {
    FoundPrefix(s, i);
  }

  lemma {:induction false} DropHead(head: string, taken: string, rest: string)
    ensures (head + taken + rest)[|head|..] == taken + rest
  {
  }

  lemma {:induction false} CleanCut(head: string, taken: string, rest: string)
    requires NoLongToken(head + taken + rest) && Find(head + taken + rest, PREFIX) == Some(|head|)
    ensures RunLength(taken + rest) <= 12 && NoLongToken(rest)
  {
    FirstRunIsShort(head + taken + rest, |head|);
    DropHead(head, taken, rest);
    NoLongSuffix(head + taken, rest);
  }

  /** Text without such runs is left alone, so redacting twice is redacting once. */
  lemma {:induction false} RedactKeepsCleanText(s: string)
    requires NoLongToken(s)
    ensures Redact(s) == s
    decreases |s|
  {
    if Find(s, PREFIX).Some? {
      var head, taken, rest := Cut(s);
      CleanCut(head, taken, rest);
      RedactKeepsCleanText(rest);
    }
  }

  lemma RedactIsIdempotent(s: string)
    ensures Redact(Redact(s)) == Redact(s)
  {
    RedactLeavesNoLongToken(s);
    RedactKeepsCleanText(Redact(s));
  }

  // ---------------------------------------------------------------- the given token is gone

  lemma {:induction false} FreePrefix(a: string, b: string, t: string)
    requires Free(a + b, t)
    ensures Free(a, t)
  {
    forall j: nat ensures !OccursAt(a, t, j) {
      OccursChars(a, t, j);
      OccursChars(a + b, t, j);
    }
  }

  lemma {:induction false} FreeSuffix(a: string, b: string, t: string)
    requires Free(a + b, t)
    ensures Free(b, t)
  {
    forall j: nat ensures !OccursAt(b, t, j) {
      OccursShift(a, b, t, j);
    }
  }

  /** Laid over the mask from its place `i` on (which may be negative), `t` agrees with the mask
      wherever the two overlap, and they do overlap. */
  predicate LiesOver(t: string, i: int) {
    -|t| < i < 14 && forall k :: 0 <= k < |t| && 0 <= i + k < 14 ==> t[k] == MASK[i + k]
  }

  /** Some part of a mask, with text around it, can read `t`. */
  ghost predicate Overlays(t: string) {
    exists i :: LiesOver(t, i)
  }

  lemma {:induction false} OccursOverMask(a: string, b: string, t: string, j: nat)
    requires OccursAt(a + MASK + b, t, j) && |a| < j + |t| && j < |a| + 14
    ensures LiesOver(t, j - |a|)
  {
    var h := a + MASK + b;
    OccursChars(h, t, j);
    forall k | 0 <= k < |t| && 0 <= j - |a| + k < 14
      ensures t[k] == MASK[j - |a| + k]
    {
      assert h[j + k] == t[k];
    }
  }

  lemma {:induction false} FreeAround(a: string, b: string, t: string)
    requires !Overlays(t) && Free(a, t) && Free(b, t)
    ensures Free(a + MASK + b, t)
  {
    forall j: nat ensures !OccursAt(a + MASK + b, t, j) {
      if OccursAt(a + MASK + b, t, j) {
        OccursAround(a, b, t, j);
      }
    }
  }

  /** Where an occurrence across a mask would lie: before it, after it, or over it. */
  lemma {:induction false} OccursAround(a: string, b: string, t: string, j: nat)
    requires OccursAt(a + MASK + b, t, j)
    ensures OccursAt(a, t, j) || (j >= |a| + 14 && OccursAt(b, t, j - |a| - 14)) || Overlays(t)
  {
    if j + |t| <= |a| {
      OccursChars(a + MASK + b, t, j);
      OccursChars(a, t, j);
    } else if j >= |a| + 14 {
      OccursShift(a + MASK, b, t, j - |a| - 14);
    } else {
      OccursOverMask(a, b, t, j);
    }
  }

  lemma {:induction false} ReplaceCut(s: string, t: string) returns (head: string, rest: string)
    requires t != "" && Find(s, t).Some?
    ensures |rest| < |s| && Free(head, t)
    ensures Replace(s, t) == head + MASK + Replace(rest, t)
  {
    var i := Find(s, t).value;
    head, rest := s[..i], s[i + |t|..];
    HeadIsFree(s, t);
  }

  lemma {:induction false} NotFoundIsFree(s: string, t: string)
    requires Find(s, t).None?
    ensures Free(s, t)
  {
    FindIsFirst(s, t);
  }

  lemma {:induction false} ReplaceFrees(s: string, t: string)
    requires t != "" && !Overlays(t)
    ensures Free(Replace(s, t), t)
    decreases |s|
  {
    if Find(s, t).None? {
      NotFoundIsFree(s, t);
    } else {
      var head, rest := ReplaceCut(s, t);
      ReplaceFrees(rest, t);
      FreeAround(head, Replace(rest, t), t);
    }
  }

  lemma {:induction false} MaskedSeam(p: string, head: string, taken: string, rest: string, rest': string, t: string)
    requires t != "" && !Overlays(t)
    requires Free(p + (head + taken + rest), t) && Free(rest', t)
    ensures Free(p + (head + MASK + rest'), t)
  {
    assert p + (head + taken + rest) == p + head + (taken + rest);
    FreePrefix(p + head, taken + rest, t);
    FreeAround(p + head, rest', t);
    assert p + (head + MASK + rest') == p + head + MASK + rest';
  }

  /** Redacting the rest of a text never brings the token back, even across the seam. */
  lemma {:induction false} RedactKeepsFree(p: string, s: string, t: string)
    requires t != "" && !Overlays(t)
    requires Free(p + s, t)
    ensures Free(p + Redact(s), t)
    decreases |s|, 0
  {
    if Find(s, PREFIX).Some? {
      var head, taken, rest := Cut(s);
      Regroup(p, head, taken, rest);
      if |taken| > 12 {
        FreeSuffix(p + head + taken, rest, t);
        RedactAlone(rest, t);
        MaskedSeam(p, head, taken, rest, Redact(rest), t);
      } else {
        RedactKeepsFree(p + head + taken, rest, t);
        Regroup(p, head, taken, Redact(rest));
      }
    }
  }

  lemma {:induction false} RedactAlone(s: string, t: string)
    requires t != "" && !Overlays(t) && Free(s, t)
    ensures Free(Redact(s), t)
    decreases |s|, 1
  {
    assert "" + s == s && "" + Redact(s) == Redact(s);
    RedactKeepsFree("", s, t);
  }

  lemma {:induction false} Utf8LenPositive(t: string)
    requires Utf8Len(t) >= 1
    ensures t != ""
  {
  }

  /** A long enough token that no mask can help to read occurs nowhere in the scrubbed line, not
      even across the seams of a replacement. */
  lemma ScrubHidesToken(line: string, t: string)
    requires Utf8Len(t) >= 6 && !Overlays(t)
    ensures Free(Scrub(line, Some(t)), t)
  {
    Utf8LenPositive(t);
    ReplaceFrees(line, t);
    RedactAlone(Replace(line, t), t);
  }

  /** A token without `*` overlays the mask exactly when it is part of the mask's word. */
  lemma {:induction false} StarFreeOverlaysExactlyWhen(t: string)
    requires t != "" && '*' !in t
    ensures Overlays(t) <==> !Free(WORD, t)
  {
    if Overlays(t) {
      var i :| LiesOver(t, i);
      StarFreeLiesInside(t, i);
    }
    if !Free(WORD, t) {
      var j: nat :| OccursAt(WORD, t, j);
      OccursChars(WORD, t, j);
      assert forall m :: 0 <= m < 8 ==> MASK[3 + m] == WORD[m];
      assert LiesOver(t, j + 3);
    }
  }

  lemma {:induction false} StarFreeLiesInside(t: string, i: int)
    requires LiesOver(t, i) && t != "" && '*' !in t
    ensures i >= 3 && OccursAt(WORD, t, i - 3)
  {
    forall m | 0 <= m < 14 && i <= m < i + |t|
      ensures MASK[m] in t
    {
      assert t[m - i] == MASK[i + (m - i)];
    }
    assert forall m :: 0 <= m < 14 && (m < 3 || m >= 11) ==> MASK[m] == '*';
    assert MASK[0] == MASK[1] == MASK[2] == MASK[11] == MASK[12] == MASK[13] == '*';
    forall k | 0 <= k < |t| ensures WORD[i - 3 + k] == t[k] {
      assert MASK[3 + (i - 3 + k)] == WORD[i - 3 + k];
    }
    OccursChars(WORD, t, i - 3);
  }

  /** A token that holds a long `hf_` run is hidden whatever else it holds, given or not. */
  lemma ScrubHidesHuggingFaceTokens(line: string, token: Option<string>, t: string)
    requires !NoLongToken(t)
    ensures Free(Scrub(line, token), t)
  {
    var out := Scrub(line, token);
    RedactLeavesNoLongToken(if token.Some? && Utf8Len(token.value) >= 6 then Replace(line, token.value) else line);
    forall j: nat ensures !OccursAt(out, t, j) {
      if OccursAt(out, t, j) {
        CleanInside(out, t, j);
      }
    }
  }

  /** A text without long runs has none inside any part of it. */
  lemma {:induction false} CleanInside(s: string, t: string, j: nat)
    requires NoLongToken(s) && OccursAt(s, t, j)
    ensures NoLongToken(t)
  {
    var after := s[j..][|t|..];
    assert s == s[..j] + (t + after);
    NoLongSuffix(s[..j], t + after);
    forall i: nat | OccursAt(t, PREFIX, i) ensures RunLength(t[i..]) <= 12 {
      OccursChars(t, PREFIX, i);
      OccursChars(t + after, PREFIX, i);
      assert (t + after)[i..] == t[i..] + after;
      RunOfConcat(t[i..], after);
    }
  }

  // ---------------------------------------------------------------- when it is not hidden

  lemma {:induction false} ReplaceWhole(t: string, after: string)
    requires t != "" && |after| < |t|
    ensures Replace(t + after, t) == MASK + after
  {
    assert (t + after)[0..] == t + after;
    FindIs(t + after, t, 0);
    assert (t + after)[..0] == "" && (t + after)[|t|..] == after;
    NotInShorter(after, t);
    assert Replace(after, t) == after;
    assert "" + MASK + after == MASK + after;
  }

  lemma {:induction false} NotInShorter(s: string, t: string)
    requires |s| < |t|
    ensures Find(s, t).None?
  {
    forall j: nat ensures !OccursAt(s, t, j) {
      OccursChars(s, t, j);
    }
  }

  lemma {:induction false} MaskThenClean(v: string)
    requires NoLongToken(v)
    ensures Redact(MASK + v) == MASK + v
  {
    forall j: nat ensures !OccursAt("", PREFIX, j) {
      OccursChars("", PREFIX, j);
    }
    NoLongMasked("", v);
    assert "" + MASK + v == MASK + v;
    RedactKeepsCleanText(MASK + v);
  }

  lemma EmptyIsClean()
    ensures NoLongToken("")
  {
    forall j: nat ensures !OccursAt("", PREFIX, j) {
      OccursChars("", PREFIX, j);
    }
  }

  lemma {:induction false} ShortTokenShows(t: string)
    requires NoLongToken(t) && Utf8Len(t) < 6
    ensures !Free(Scrub(t, Some(t)), t)
  {
    RedactKeepsCleanText(t);
    assert t[0..] == t;
    assert OccursAt(t, t, 0);
  }

  /** What of `t` reaches past the mask it is laid over. */
  function Past(t: string, i: int): (b: string)
    requires LiesOver(t, i)
    ensures t != "" ==> |b| < |t|
  {
    if i + |t| > 14 then t[14 - i..] else ""
  }

  lemma {:induction false} CleanPast(t: string, i: int)
    requires LiesOver(t, i) && NoLongToken(t)
    ensures NoLongToken(Past(t, i))
  {
    if i + |t| > 14 {
      assert t == t[..14 - i] + t[14 - i..];
      NoLongSuffix(t[..14 - i], t[14 - i..]);
    } else {
      EmptyIsClean();
    }
  }

  /** Laid over at or after the mask's start: the token followed by what reaches past the mask. */
  lemma {:induction false} ShowsAfter(t: string, i: nat) returns (line: string)
    requires LiesOver(t, i) && NoLongToken(t) && Utf8Len(t) >= 6
    ensures !Free(Scrub(line, Some(t)), t)
  {
    var b := Past(t, i);
    line := t + b;
    ReplaceWhole(t, b);
    CleanPast(t, i);
    MaskThenClean(b);
    OverlayReads("", t, i, b);
    assert "" + MASK + b == MASK + b;
  }

  /** The text in front of the mask, the mask and the text past it read `t`. */
  lemma {:induction false} OverlayReads(a: string, t: string, i: int, b: string)
    requires LiesOver(t, i) && b == Past(t, i) && a == t[..if i < 0 then -i else 0]
    ensures OccursAt(a + MASK + b, t, if i < 0 then 0 else i)
  {
    var h, j := a + MASK + b, if i < 0 then 0 else i;
    forall k | 0 <= k < |t|
      ensures j + k < |h| && h[j + k] == t[k]
    {
      if 0 <= i + k < 14 {
        assert h[|a| + (i + k)] == MASK[i + k];
      }
    }
    OccursChars(h, t, j);
  }

  /** An occurrence before its own place would repeat its first character at `n`. */
  lemma {:induction false} EarlierOccurrence(t: string, n: nat, b: string, j: nat)
    requires 0 < n < |t| && j < n && OccursAt(t[..n] + t + b, t, j)
    ensures t[n] == t[0]
  {
    var h := t[..n] + t + b;
    OccursChars(h, t, j);
    assert h[j + 0] == t[0] && h[j + n] == t[n];
    assert h[j + n] == t[j] && h[j] == t[j];
  }

  lemma {:induction false} ReplaceMiddle(t: string, n: nat, b: string)
    requires 0 < n < |t| && t[n] == '*' && t[0] != '*' && |b| < |t|
    ensures Replace(t[..n] + t + b, t) == t[..n] + MASK + b
  {
    var h := t[..n] + t + b;
    assert h[n..] == t + b;
    OccursChars(h, t, n);
    forall j: nat | j < n ensures !OccursAt(h, t, j) {
      if OccursAt(h, t, j) {
        EarlierOccurrence(t, n, b, j);
      }
    }
    FindIs(h, t, n);
    assert h[..n] == t[..n] && h[n + |t|..] == b;
    NotInShorter(b, t);
    assert Replace(b, t) == b;
  }

  /** A star ends a run as a mask does. */
  lemma {:induction false} RunToStar(t: string, n: nat, b: string, j: nat)
    requires j <= n < |t| && t[n] == '*'
    ensures RunLength((t[..n] + (MASK + b))[j..]) == RunLength(t[j..])
  {
    RunOfMask(b);
    RunOfConcat(t[j..n], MASK + b);
    RunOfConcat(t[j..n], t[n..]);
    assert (t[..n] + (MASK + b))[j..] == t[j..n] + (MASK + b);
    assert t[j..] == t[j..n] + t[n..];
  }

  lemma {:induction false} CleanAround(t: string, n: nat, b: string)
    requires 0 < n < |t| && t[n] == '*' && NoLongToken(t) && NoLongToken(b)
    ensures NoLongToken(t[..n] + MASK + b)
  {
    var a, rest := t[..n], MASK + b;
    EmptyIsFree();
    NoLongMasked("", b);
    assert "" + MASK + b == rest;
    forall j: nat | j < |a| && OccursAt(a + rest, PREFIX, j)
      ensures RunLength((a + rest)[j..]) <= 12
    {
      PrefixBeforeStar(t, n, b, j);
      RunToStar(t, n, b, j);
    }
    NoLongAfter(a, rest);
    assert a + MASK + b == a + rest;
  }

  lemma EmptyIsFree()
    ensures Free("", PREFIX)
  {
    forall j: nat ensures !OccursAt("", PREFIX, j) {
      OccursChars("", PREFIX, j);
    }
  }

  lemma {:induction false} PrefixBeforeStar(t: string, n: nat, b: string, j: nat)
    requires j < n < |t| && OccursAt(t[..n] + (MASK + b), PREFIX, j)
    ensures OccursAt(t, PREFIX, j)
  {
    var h := t[..n] + (MASK + b);
    OccursChars(h, PREFIX, j);
    OccursChars(t, PREFIX, j);
    assert h[n] == '*';
    assert forall k :: 0 <= k < 3 ==> PREFIX[k] != '*';
    assert n < j + 3 ==> h[j + (n - j)] == PREFIX[n - j];
  }

  /** Laid over the mask's start: what comes before the mask, the token, what reaches past. */
  lemma {:induction false} ShowsBefore(t: string, n: int) returns (line: string)
    requires 0 < n < |t| && LiesOver(t, -n) && t[0] != '*' && NoLongToken(t) && Utf8Len(t) >= 6
    ensures !Free(Scrub(line, Some(t)), t)
  {
    var b := Past(t, -n);
    line := t[..n] + t + b;
    assert t[n] == MASK[-n + n];
    ReplaceMiddle(t, n, b);
    CleanPast(t, -n);
    CleanAround(t, n, b);
    RedactKeepsCleanText(t[..n] + MASK + b);
    OverlayReads(t[..n], t, -n, b);
  }

  lemma {:induction false} OverlayShows(t: string) returns (line: string)
    requires Overlays(t) && NoLongToken(t) && Utf8Len(t) >= 6
    ensures !Free(Scrub(line, Some(t)), t)
  {
    var i :| LiesOver(t, i);
    if i >= 0 {
      line := ShowsAfter(t, i);
    } else if t[0] == '*' {
      assert LiesOver(t, 13);
      line := ShowsAfter(t, 13);
    } else {
      line := ShowsBefore(t, -i);
    }
  }

  /** MAIN RESULT. A token is hidden from every line exactly when it holds a long `hf_` run, or has
      at least six bytes and cannot be laid over the mask without a mismatch. */
  lemma {:induction false} HiddenExactlyWhen(t: string)
    requires t != ""
    ensures (forall line: string :: Free(Scrub(line, Some(t)), t)) <==>
            !NoLongToken(t) || (Utf8Len(t) >= 6 && !Overlays(t))
  {
    if !NoLongToken(t) {
      forall line: string ensures Free(Scrub(line, Some(t)), t) {
        ScrubHidesHuggingFaceTokens(line, Some(t), t);
      }
    } else if Utf8Len(t) < 6 {
      ShortTokenShows(t);
    } else if Overlays(t) {
      var line := OverlayShows(t);
    } else {
      forall line: string ensures Free(Scrub(line, Some(t)), t) {
        ScrubHidesToken(line, t);
      }
    }
  }
}
