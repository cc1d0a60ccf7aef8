/** The link extractor `utils::extract_url`: the leftmost match of the
    pattern `https?://[^\s一-龥]+`, taken greedily, written as a
    forward scan. */
module Url {
  import opened Optional
  import opened Strings

  /** The CJK Unified Ideographs range U+4E00..U+9FA5 that the pattern
      refuses inside a link. */
  predicate IsCjk(c: char)
  {
    '\U{4E00}' <= c <= '\U{9FA5}'
  }

  /** A character of the class `[^\s一-龥]`. */
  predicate IsUrlChar(c: char)
  {
    !IsWhitespace(c) && !IsCjk(c)
  }

  /** Length of the `https?://` scheme that starts at `i`, or 0 when there is
      none. The optional `s` is tried first; both spellings can never start
      at the same place. */
  function SchemeLen(text: string, i: nat): nat
    requires i <= |text|
  {
    if StartsWith(text[i..], "https://") then 8
    else if StartsWith(text[i..], "http://") then 7
    else 0
  }

  /** The pattern has a match starting at `i`: a scheme followed by at least
      one character of the class. */
  predicate MatchesAt(text: string, i: nat)
  {
    && i < |text|
    && SchemeLen(text, i) > 0
    && i + SchemeLen(text, i) < |text|
    && IsUrlChar(text[i + SchemeLen(text, i)])
  }

  /** The end of the run of class characters that begins at `j`: the greedy
      `+`. */
  function RunEnd(text: string, j: nat): (k: nat)
    requires j <= |text|
    ensures j <= k <= |text|
    ensures forall m :: j <= m < k ==> IsUrlChar(text[m])
    ensures k == |text| || !IsUrlChar(text[k])
    decreases |text| - j
  {
    if j < |text| && IsUrlChar(text[j]) then RunEnd(text, j + 1) else j
  }

  /** The first position at or after `i` where a match starts. */
  function FindFrom(text: string, i: nat): (r: Option<nat>)
    requires i <= |text|
    ensures r.None? <==> forall j :: i <= j < |text| ==> !MatchesAt(text, j)
    ensures r.Some? ==> i <= r.value < |text| && MatchesAt(text, r.value)
    ensures r.Some? ==> forall j :: i <= j < r.value ==> !MatchesAt(text, j)
    decreases |text| - i
  {
    if i == |text| then None
    else if MatchesAt(text, i) then Some(i)
    else FindFrom(text, i + 1)
  }

  /** `text[i..k]` is what a leftmost, greedy matcher reports: a match starts
      at `i`, none starts earlier, and the run of class characters after the
      scheme stops at `k` only because the text ends or a whitespace or CJK
      character follows. */
  ghost predicate LeftmostGreedy(text: string, i: nat, k: nat)
  {
    && MatchesAt(text, i)
    && (forall j :: 0 <= j < i ==> !MatchesAt(text, j))
    && i + SchemeLen(text, i) < k <= |text|
    && (forall m :: i + SchemeLen(text, i) <= m < k ==> IsUrlChar(text[m]))
    && (k == |text| || !IsUrlChar(text[k]))
  }

  /** `utils::extract_url(text)` */
  function ExtractUrl(text: string): (r: Option<string>)
    ensures r.None? <==> forall i :: 0 <= i < |text| ==> !MatchesAt(text, i)
    ensures r.Some? ==> exists i: nat, k: nat :: LeftmostGreedy(text, i, k) && r.value == text[i..k]
  {
    match FindFrom(text, 0)
    case None => None
    case Some(i) =>
      var k := RunEnd(text, i + SchemeLen(text, i));
      assert LeftmostGreedy(text, i, k);
      Some(text[i..k])
  }

  /** There is exactly one leftmost greedy match, so the extracted link is
      fully determined by the text. */
  lemma LeftmostGreedyUnique(text: string, i: nat, k: nat, i': nat, k': nat)
    requires LeftmostGreedy(text, i, k) && LeftmostGreedy(text, i', k')
    ensures i == i' && k == k'
  {
  }

  /** The scheme seen at position `i` of the text is the scheme seen at the
      start of any slice that begins at `i` and covers it. */
  lemma SchemeLenOfSlice(text: string, i: nat, k: nat)
    requires i <= k <= |text| && SchemeLen(text, i) > 0 && i + SchemeLen(text, i) < k
    ensures SchemeLen(text[i..k], 0) == SchemeLen(text, i)
  {
    var s := text[i..k];
    assert s[0..] == s;
    if |s| >= 8 {
      assert s[..8] == text[i..][..8];
    }
    if |s| >= 7 {
      assert s[..7] == text[i..][..7];
    }
    if SchemeLen(text, i) == 7 && |s| == 8 {
      assert text[i..][..7] == "http://";
      assert s[4] == ':';
      assert s[..8] != "https://";
    }
  }

  /** An extracted link starts with `http://` or `https://` and is followed
      by at least one character, all of which are neither whitespace nor
      CJK. */
  lemma ExtractedUrlShape(text: string)
    requires ExtractUrl(text).Some?
    ensures var u := ExtractUrl(text).value;
      && (StartsWith(u, "http://") || StartsWith(u, "https://"))
      && SchemeLen(u, 0) < |u|
      && forall m :: SchemeLen(u, 0) <= m < |u| ==> IsUrlChar(u[m])
  {
    var u := ExtractUrl(text).value;
    var i: nat, k: nat :| LeftmostGreedy(text, i, k) && u == text[i..k];
    SchemeLenOfSlice(text, i, k);
    var n := SchemeLen(u, 0);
    assert n > 0 && n < |u|;
    assert StartsWith(u, "http://") || StartsWith(u, "https://") by {
      assert u[0..] == u;
    }
    forall m | n <= m < |u|
      ensures IsUrlChar(u[m])
    {
      assert u[m] == text[i + m];
    }
  }

  /** A match always has `:` right after `http` or `https`. */
  lemma MatchNeedsColon(text: string, i: nat)
    requires MatchesAt(text, i)
    ensures text[i] == 'h'
    ensures text[i + 4] == ':' || text[i + 5] == ':'
  {
    var n := SchemeLen(text, i);
    if n == 8 {
      assert text[i..][..8] == "https://";
      assert text[i] == text[i..][..8][0] && text[i + 5] == text[i..][..8][5];
    } else {
      assert text[i..][..7] == "http://";
      assert text[i] == text[i..][..7][0] && text[i + 4] == text[i..][..7][4];
    }
  }

  /** Text without a colon holds no link. */
  lemma NoColonNoLink(text: string)
    requires ':' !in text
    ensures ExtractUrl(text) == None
  {
    forall i | 0 <= i < |text| ensures !MatchesAt(text, i) {
      if MatchesAt(text, i) {
        MatchNeedsColon(text, i);
        assert false;
      }
    }
  }

  /** A link preceded by text without any `h` and followed by the end of the
      text, a whitespace or a CJK character is extracted exactly. */
  lemma LinkBetween(before: string, link: string, after: string)
    requires 'h' !in before
    requires 0 < SchemeLen(link, 0) < |link|
    requires forall c :: c in link ==> IsUrlChar(c)
    requires after == [] || !IsUrlChar(after[0])
    ensures ExtractUrl(before + link + after) == Some(link)
  {
    var t := before + link + after;
    var i, k := |before|, |before| + |link|;
    assert t[i..] == link + after;
    assert t[i..][..|link|] == link;
    assert SchemeLen(t, i) == SchemeLen(link, 0) by {
      assert link[0..] == link;
      if |link| >= 8 { assert t[i..][..8] == link[..8]; }
      assert t[i..][..7] == link[..7];
    }
    forall m | i <= m < k ensures IsUrlChar(t[m]) {
      assert t[m] == link[m - i];
    }
    forall j | 0 <= j < i ensures !MatchesAt(t, j) {
      if MatchesAt(t, j) {
        MatchNeedsColon(t, j);
      }
    }
    assert k == |t| || t[k] == after[0];
    assert LeftmostGreedy(t, i, k);
    var i': nat, k': nat :| LeftmostGreedy(t, i', k') && ExtractUrl(t).value == t[i'..k'];
    LeftmostGreedyUnique(t, i', k', i, k);
    assert t[i..k] == link;
  }
}
