/** The text pipeline `generatePost` runs over the model's raw answer before
    handing it to the JSON decoder: pull out the brace-delimited span, turn
    typographic quotes and backticks into plain double quotes, turn line
    feeds into spaces, and trim. A Dafny `char` is a Unicode scalar value,
    where Java counts UTF-16 units; every character the pipeline inspects
    or writes is a single unit in both, so the two agree on it, but lengths
    of text outside the basic plane differ. */
module PostText {
  import opened Wrappers

  const LeftDoubleQuote: char := '\U{201C}'
  const RightDoubleQuote: char := '\U{201D}'
  const Backtick: char := '`'
  const LineFeed: char := '\n'

  /** What `String.trim` strips: every character at or below U+0020 */
  predicate IsTrimmable(c: char) {
    c <= ' '
  }

  // ---------------------------------------------------------------------
  // Step 1: the regex `\{.*\}` under DOTALL, first match

  /** `i` is the first position of `c` in `s` */
  ghost predicate FirstAt(s: string, i: int, c: char) {
    0 <= i < |s| && s[i] == c && c !in s[..i]
  }

  /** `j` is the last position of `c` in `s` */
  ghost predicate LastAt(s: string, j: int, c: char) {
    0 <= j < |s| && s[j] == c && c !in s[j + 1..]
  }

  /** Some `{` comes before some `}`: exactly when `\{.*\}` matches somewhere */
  ghost predicate HasBracePair(s: string) {
    exists i, j :: 0 <= i < j < |s| && s[i] == '{' && s[j] == '}'
  }

  /** Opens with `{` and closes with `}` */
  predicate Braced(t: string) {
    |t| >= 2 && t[0] == '{' && t[|t| - 1] == '}'
  }

  /** `s[i..j+1]` is the match `Matcher.find` reports: a `{` at the leftmost
      start any match can have, and the greedy `.*` running to the rightmost
      `}` after it. */
  ghost predicate RegexMatch(s: string, i: int, j: int) {
    && 0 <= i < j < |s| && s[i] == '{' && s[j] == '}'
    && (forall i', j' :: 0 <= i' < j' < |s| && s[i'] == '{' && s[j'] == '}' ==> i <= i')
    && (forall j' :: i < j' < |s| && s[j'] == '}' ==> j' <= j)
  }

  function FirstIndexOf(s: string, c: char): (r: Option<nat>)
    ensures r.None? <==> c !in s
    ensures r.Some? ==> FirstAt(s, r.value, c)
  {
    if |s| == 0 then None
    else if s[0] == c then
      assert s[..0] == [];
      Some(0)
    else
      assert s == [s[0]] + s[1..];
      match FirstIndexOf(s[1..], c)
      case None => None
      case Some(k) =>
        assert s[..k + 1] == [s[0]] + s[1..][..k];
        Some(k + 1)
  }

  function LastIndexOf(s: string, c: char): (r: Option<nat>)
    ensures r.None? <==> c !in s
    ensures r.Some? ==> LastAt(s, r.value, c)
  {
    if |s| == 0 then None
    else if s[|s| - 1] == c then
      assert s[|s|..] == [];
      Some(|s| - 1)
    else
      var init := s[..|s| - 1];
      assert s == init + [s[|s| - 1]];
      match LastIndexOf(init, c)
      case None => None
      case Some(j) =>
        assert s[j + 1..] == init[j + 1..] + [s[|s| - 1]];
        Some(j)
  }

  lemma FirstAtUnique(s: string, i: int, i': int, c: char)
    requires FirstAt(s, i, c) && FirstAt(s, i', c)
    ensures i == i'
  {
  }

  lemma LastAtUnique(s: string, j: int, j': int, c: char)
    requires LastAt(s, j, c) && LastAt(s, j', c)
    ensures j == j'
  {
  }

  /** A brace pair exists exactly when the first `{` precedes the last `}` */
  lemma BracePairByEnds(s: string, i: int, j: int)
    requires FirstAt(s, i, '{') && LastAt(s, j, '}')
    ensures HasBracePair(s) <==> i < j
  {
    if HasBracePair(s) {
      var a, b :| 0 <= a < b < |s| && s[a] == '{' && s[b] == '}';
    }
  }

  /** Step 1, lines 76-80: on a match, the span from the first `{` through
      the last `}`; otherwise the input unchanged. */
  function ExtractObject(s: string): (r: string)
    ensures forall i, j :: FirstAt(s, i, '{') && LastAt(s, j, '}') && i < j ==> r == s[i..j + 1]
    ensures !HasBracePair(s) ==> r == s
    ensures |r| <= |s|
  {
    match (FirstIndexOf(s, '{'), LastIndexOf(s, '}'))
    case (Some(i), Some(j)) =>
      BracePairByEnds(s, i, j);
      assert forall i', j' :: FirstAt(s, i', '{') && LastAt(s, j', '}') ==> i' == i && j' == j by {
        forall i', j' | FirstAt(s, i', '{') && LastAt(s, j', '}') ensures i' == i && j' == j {
          FirstAtUnique(s, i, i', '{');
          LastAtUnique(s, j, j', '}');
        }
      }
      if i < j then s[i..j + 1] else s
    case (_, _) =>
      assert !HasBracePair(s);
      s
  }

  /** On a match, the positions of the first `{` and the last `}`, which
      bound the extracted span */
  lemma MatchBounds(s: string) returns (i: int, j: int)
    requires HasBracePair(s)
    ensures FirstAt(s, i, '{') && LastAt(s, j, '}') && i < j
    ensures ExtractObject(s) == s[i..j + 1]
  {
    var a, b :| 0 <= a < b < |s| && s[a] == '{' && s[b] == '}';
    assert '{' in s && '}' in s;
    i := FirstIndexOf(s, '{').value;
    j := LastIndexOf(s, '}').value;
    BracePairByEnds(s, i, j);
  }

  /** The span `ExtractObject` keeps is the match `Matcher.find` reports */
  lemma ExtractIsRegexMatch(s: string)
    ensures HasBracePair(s) ==>
      exists i, j :: RegexMatch(s, i, j) && ExtractObject(s) == s[i..j + 1]
  {
    if HasBracePair(s) {
      var i, j := MatchBounds(s);
      forall i', j' | 0 <= i' < j' < |s| && s[i'] == '{' && s[j'] == '}'
        ensures i <= i'
      {
      }
      forall j' | i < j' < |s| && s[j'] == '}'
        ensures j' <= j
      {
      }
      assert RegexMatch(s, i, j);
    }
  }

  /** Text around the object that holds no `{` before it and no `}` after it
      is cut away, whatever the object holds in between. */
  lemma ExtractAround(pre: string, obj: string, post: string)
    requires '{' !in pre && '}' !in post
    requires Braced(obj)
    ensures ExtractObject(pre + obj + post) == obj
  {
    var s := pre + obj + post;
    var i, j := |pre|, |pre| + |obj| - 1;
    assert s[..i] == pre;
    assert s[j + 1..] == post;
    assert FirstAt(s, i, '{') && LastAt(s, j, '}');
    assert s[i..j + 1] == obj;
  }

  // ---------------------------------------------------------------------
  // Steps 2 and 3: `replaceAll` with a one-character literal pattern

  /** `s.replaceAll(from, to)` for a pattern and replacement that are single
      ordinary characters: each `from` becomes `to`, nothing else moves. */
  function ReplaceChar(s: string, from: char, to: char): (r: string)
    ensures |r| == |s|
    ensures forall i {:trigger r[i]} :: 0 <= i < |s| ==> r[i] == (if s[i] == from then to else s[i])
  {
    if |s| == 0 then []
    else [if s[0] == from then to else s[0]] + ReplaceChar(s[1..], from, to)
  }

  predicate IsQuoteLike(c: char) {
    c == LeftDoubleQuote || c == RightDoubleQuote || c == Backtick
  }

  /** Step 2, lines 84-86: the three quote replacements, in source order */
  function NormalizeQuotes(s: string): (r: string)
    ensures |r| == |s|
    ensures LeftDoubleQuote !in r && RightDoubleQuote !in r && Backtick !in r
    ensures forall i {:trigger r[i]} :: 0 <= i < |s| ==> r[i] == (if IsQuoteLike(s[i]) then '"' else s[i])
  {
    var r := ReplaceChar(ReplaceChar(ReplaceChar(s, LeftDoubleQuote, '"'), RightDoubleQuote, '"'), Backtick, '"');
    assert forall i :: 0 <= i < |r| ==> !IsQuoteLike(r[i]);
    r
  }

  /** Step 3, line 87: every line feed becomes a space; a carriage return
      is an ordinary character here and stays. */
  function FoldNewlines(s: string): (r: string)
    ensures |r| == |s|
    ensures LineFeed !in r
    ensures forall i {:trigger r[i]} :: 0 <= i < |s| && s[i] != LineFeed ==> r[i] == s[i]
    ensures forall i {:trigger r[i]} :: 0 <= i < |s| && s[i] == LineFeed ==> r[i] == ' '
    ensures forall i {:trigger r[i]} :: 0 <= i < |s| && s[i] == '\r' ==> r[i] == '\r'
  {
    var r := ReplaceChar(s, LineFeed, ' ');
    assert forall i :: 0 <= i < |r| ==> r[i] != LineFeed;
    r
  }

  // ---------------------------------------------------------------------
  // Step 4: `String.trim`

  /** Neither end is trimmable */
  predicate VisibleEnds(r: string) {
    |r| == 0 || (!IsTrimmable(r[0]) && !IsTrimmable(r[|r| - 1]))
  }

  /** `r` is the slice of `s` starting at `a`, and everything outside it is trimmable */
  ghost predicate TrimmedAt(s: string, a: int, r: string) {
    && 0 <= a && a + |r| <= |s| && r == s[a..a + |r|]
    && (forall k :: 0 <= k < a ==> IsTrimmable(s[k]))
    && (forall k :: a + |r| <= k < |s| ==> IsTrimmable(s[k]))
  }

  function LeadingTrimmable(s: string): (n: nat)
    ensures n <= |s|
    ensures forall k :: 0 <= k < n ==> IsTrimmable(s[k])
    ensures n < |s| ==> !IsTrimmable(s[n])
  {
    if |s| > 0 && IsTrimmable(s[0]) then 1 + LeadingTrimmable(s[1..]) else 0
  }

  function TrailingTrimmable(s: string): (n: nat)
    ensures n <= |s|
    ensures forall k :: |s| - n <= k < |s| ==> IsTrimmable(s[k])
    ensures n < |s| ==> !IsTrimmable(s[|s| - n - 1])
  {
    if |s| > 0 && IsTrimmable(s[|s| - 1]) then 1 + TrailingTrimmable(s[..|s| - 1]) else 0
  }

  /** Step 4, line 88: the longest slice with no trimmable character at
      either end, everything cut away being trimmable. */
  function Trim(s: string): (r: string)
    ensures VisibleEnds(r)
    ensures exists a :: TrimmedAt(s, a, r)
  {
    var a := LeadingTrimmable(s);
    var rest := s[a..];
    var r := rest[..|rest| - TrailingTrimmable(rest)];
    assert r == s[a..a + |r|];
    assert TrimmedAt(s, a, r);
    r
  }

  /** A visible-ended slice with only trimmable characters outside it is
      the trim: `Trim` is pinned down by its contract. */
  lemma TrimUnique(s: string, a: int, r: string)
    requires TrimmedAt(s, a, r) && VisibleEnds(r)
    ensures Trim(s) == r
  {
    var t := Trim(s);
    var b :| TrimmedAt(s, b, t);
    if |r| > 0 && |t| > 0 {
      assert s[a] == r[0] && s[b] == t[0];
      assert s[a + |r| - 1] == r[|r| - 1] && s[b + |t| - 1] == t[|t| - 1];
      assert a == b;
      assert a + |r| == b + |t|;
    }
  }

  /** A string with visible ends is its own trim */
  lemma TrimOfVisible(s: string)
    requires VisibleEnds(s)
    ensures Trim(s) == s
  {
    assert s[0..|s|] == s;
    TrimUnique(s, 0, s);
  }

  /** `String.trim` as the JDK writes it: advance a start index and pull
      back an end index over trimmable characters, then cut. */
  method JavaTrim(s: string) returns (r: string)
    ensures r == Trim(s)
  {
    var len := |s|;
    var st := 0;
    while st < len && IsTrimmable(s[st])
      invariant 0 <= st <= len == |s|
      invariant forall k :: 0 <= k < st ==> IsTrimmable(s[k])
    {
      st := st + 1;
    }
    while st < len && IsTrimmable(s[len - 1])
      invariant st <= len <= |s|
      invariant forall k :: len <= k < |s| ==> IsTrimmable(s[k])
      invariant st < len ==> !IsTrimmable(s[st])
    {
      len := len - 1;
    }
    if st > 0 || len < |s| {
      r := s[st..len];
    } else {
      r := s;
    }
    assert r == s[st..st + |r|];
    TrimUnique(s, st, r);
  }

  // ---------------------------------------------------------------------
  // The whole pipeline

  /** Steps 2 to 4, lines 83-88 */
  function Normalize(s: string): (r: string)
    ensures |r| <= |s|
    ensures Normalized(r)
  {
    var q := NormalizeQuotes(s);
    var f := FoldNewlines(q);
    assert forall i :: 0 <= i < |f| ==> !IsQuoteLike(f[i]) by {
      forall i | 0 <= i < |f| ensures !IsQuoteLike(f[i]) {
        assert q[i] in q;
      }
    }
    TrimKeepsAbsent(f, LeftDoubleQuote);
    TrimKeepsAbsent(f, RightDoubleQuote);
    TrimKeepsAbsent(f, Backtick);
    TrimKeepsAbsent(f, LineFeed);
    Trim(f)
  }

  /** Trimming only removes characters */
  lemma TrimKeepsAbsent(f: string, c: char)
    requires c !in f
    ensures c !in Trim(f)
  {
    var r := Trim(f);
    var a :| TrimmedAt(f, a, r);
  }

  /** What normalised text looks like: no typographic quote, backtick or
      line feed anywhere, and nothing trimmable at either end. */
  ghost predicate Normalized(t: string) {
    && LeftDoubleQuote !in t && RightDoubleQuote !in t && Backtick !in t
    && LineFeed !in t
    && VisibleEnds(t)
  }

  /** Lines 76-88: the text `generatePost` hands to the decoder */
  function Pipeline(s: string): (r: string)
    ensures |r| <= |s|
    ensures Normalized(r)
    ensures !HasBracePair(s) ==> r == Normalize(s)
  {
    Normalize(ExtractObject(s))
  }

  /** Replacing a character that does not occur changes nothing */
  lemma ReplaceAbsent(s: string, from: char, to: char)
    requires from !in s
    ensures ReplaceChar(s, from, to) == s
  {
    var r := ReplaceChar(s, from, to);
    assert forall i :: 0 <= i < |s| ==> r[i] == s[i];
  }

  /** Normalised text is left alone by a second normalisation */
  lemma NormalizedIsFixed(t: string)
    requires Normalized(t)
    ensures Normalize(t) == t
  {
    ReplaceAbsent(t, LeftDoubleQuote, '"');
    ReplaceAbsent(t, RightDoubleQuote, '"');
    ReplaceAbsent(t, Backtick, '"');
    ReplaceAbsent(t, LineFeed, ' ');
    TrimOfVisible(t);
  }

  /** Steps 2 to 4 applied twice give what they give once */
  lemma NormalizeIdempotent(s: string)
    ensures Normalize(Normalize(s)) == Normalize(s)
  {
    NormalizedIsFixed(Normalize(s));
  }

  /** Text that opens with `{` and closes with `}` keeps both ends, and its
      length, through normalisation: braces are not replaced, and a brace is
      not trimmable. */
  lemma NormalizeKeepsBraces(u: string)
    requires Braced(u)
    ensures |Normalize(u)| == |u|
    ensures Braced(Normalize(u))
  {
    var f := FoldNewlines(NormalizeQuotes(u));
    assert f[0] == '{' && f[|f| - 1] == '}';
    TrimOfVisible(f);
  }

  /** `u` and `v` have the same length and braces at the same places */
  ghost predicate SameBraces(u: string, v: string) {
    && |u| == |v|
    && forall k :: 0 <= k < |u| ==> (u[k] == '{' <==> v[k] == '{') && (u[k] == '}' <==> v[k] == '}')
  }

  lemma ReplaceKeepsBraces(u: string)
    ensures SameBraces(u, FoldNewlines(NormalizeQuotes(u)))
  {
  }

  lemma SameBracesNoPair(u: string, v: string)
    requires SameBraces(u, v) && !HasBracePair(u)
    ensures !HasBracePair(v)
  {
  }

  lemma SliceNoPair(f: string, a: int, r: string)
    requires TrimmedAt(f, a, r) && !HasBracePair(f)
    ensures !HasBracePair(r)
  {
  }

  /** Normalisation never creates a brace pair: it rewrites no brace and
      only cuts characters off the ends. */
  lemma NormalizeKeepsNoPair(u: string)
    requires !HasBracePair(u)
    ensures !HasBracePair(Normalize(u))
  {
    var f := FoldNewlines(NormalizeQuotes(u));
    ReplaceKeepsBraces(u);
    SameBracesNoPair(u, f);
    var a :| TrimmedAt(f, a, Trim(f));
    SliceNoPair(f, a, Trim(f));
  }

  /** Text that opens with `{` and closes with `}` is extracted whole */
  lemma ExtractOfObject(t: string)
    requires Braced(t)
    ensures ExtractObject(t) == t
  {
    ExtractAround([], t, []);
    assert [] + t + [] == t;
  }

  /** The extracted text either is a brace-delimited object or holds no
      brace pair at all. */
  lemma ExtractShape(s: string)
    ensures Braced(ExtractObject(s)) || !HasBracePair(ExtractObject(s))
  {
    if HasBracePair(s) {
      ExtractedObject(s);
    }
  }

  /** When the model's answer holds an object, the decoder is handed text
      that opens with `{` and closes with `}`. */
  lemma PipelineKeepsBraces(s: string)
    requires HasBracePair(s)
    ensures Braced(Pipeline(s))
  {
    ExtractedObject(s);
    NormalizeKeepsBraces(ExtractObject(s));
  }

  /** On a match, the extracted text opens with `{` and closes with `}` */
  lemma ExtractedObject(s: string)
    requires HasBracePair(s)
    ensures Braced(ExtractObject(s))
  {
    var i, j := MatchBounds(s);
    assert ExtractObject(s) == s[i..j + 1];
  }

  /** Extraction finds nothing more to cut in pipeline output */
  lemma ExtractOfPipeline(s: string)
    ensures ExtractObject(Pipeline(s)) == Pipeline(s)
  {
    var e := ExtractObject(s);
    ExtractShape(s);
    if Braced(e) {
      ExtractOfNormalizedObject(e);
    } else {
      ExtractOfNormalizedNoPair(e);
    }
  }

  lemma ExtractOfNormalizedObject(e: string)
    requires Braced(e)
    ensures ExtractObject(Normalize(e)) == Normalize(e)
  {
    NormalizeKeepsBraces(e);
    ExtractOfObject(Normalize(e));
  }

  lemma ExtractOfNormalizedNoPair(e: string)
    requires !HasBracePair(e)
    ensures ExtractObject(Normalize(e)) == Normalize(e)
  {
    NormalizeKeepsNoPair(e);
  }

  /** Text with no `{` skips extraction and gains no `{` from normalisation */
  lemma PipelineWithoutBraces(s: string)
    requires '{' !in s
    ensures Pipeline(s) == Normalize(s)
    ensures '{' !in Pipeline(s)
  {
    assert !HasBracePair(s);
    var f := FoldNewlines(NormalizeQuotes(s));
    ReplaceKeepsBraces(s);
    assert '{' !in f;
    TrimKeepsAbsent(f, '{');
  }

  /** Lines 76-88 are idempotent: feeding their output back in changes
      nothing. */
  lemma PipelineIdempotent(s: string)
    ensures Pipeline(Pipeline(s)) == Pipeline(s)
  {
    ExtractOfPipeline(s);
    NormalizeIdempotent(ExtractObject(s));
  }
}
