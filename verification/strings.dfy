/** The few `str` operations of Rust's standard library that the plugin relies
    on, over strings as sequences of Unicode scalar values. */
module Strings {

  /** Rust's `char::is_whitespace`, which is also what `\s` means in the
      `regex` crate's Unicode mode: the code points with the Unicode
      White_Space property. */
  predicate IsWhitespace(c: char)
  {
    || '\t' <= c <= '\r'
    || c == ' '
    || c == '\U{0085}'
    || c == '\U{00A0}'
    || c == '\U{1680}'
    || '\U{2000}' <= c <= '\U{200A}'
    || c == '\U{2028}'
    || c == '\U{2029}'
    || c == '\U{202F}'
    || c == '\U{205F}'
    || c == '\U{3000}'
  }

  /** `s.starts_with(p)` */
  predicate StartsWith(s: string, p: string)
  {
    |p| <= |s| && s[..|p|] == p
  }

  /** `s.ends_with(suffix)` */
  predicate EndsWith(s: string, suffix: string)
  {
    |suffix| <= |s| && s[|s| - |suffix|..] == suffix
  }

  /** `sub` occurs in `s` at position `i`. */
  predicate OccursAt(s: string, sub: string, i: int)
  {
    0 <= i && i + |sub| <= |s| && s[i..i + |sub|] == sub
  }

  /** `s.contains(sub)`, as a left-to-right search. */
  predicate Contains(s: string, sub: string)
    ensures Contains(s, sub) <==> exists i :: OccursAt(s, sub, i)
    decreases |s|
  {
    if StartsWith(s, sub) then
      assert OccursAt(s, sub, 0);
      true
    else if |s| == 0 then
      false
    else
      OccursAtShift(s, sub);
      Contains(s[1..], sub)
  }

  /** Past position 0, occurrences in `s` are occurrences in `s[1..]`. */
  lemma OccursAtShift(s: string, sub: string)
    requires |s| > 0 && !StartsWith(s, sub)
    ensures (exists i :: OccursAt(s, sub, i)) <==> (exists i :: OccursAt(s[1..], sub, i))
  {
    forall i | OccursAt(s, sub, i)
      ensures OccursAt(s[1..], sub, i - 1)
    {
      assert i != 0;
      assert s[1..][i - 1..i - 1 + |sub|] == s[i..i + |sub|];
    }
    forall i | OccursAt(s[1..], sub, i)
      ensures OccursAt(s, sub, i + 1)
    {
      assert s[1..][i..i + |sub|] == s[i + 1..i + 1 + |sub|];
    }
  }

  /** `s.trim_start()` */
  function TrimStart(s: string): (r: string)
    ensures |r| <= |s| && r == s[|s| - |r|..]
    ensures forall k :: 0 <= k < |s| - |r| ==> IsWhitespace(s[k])
    ensures r != [] ==> !IsWhitespace(r[0])
    decreases |s|
  {
    if |s| > 0 && IsWhitespace(s[0]) then TrimStart(s[1..]) else s
  }

  /** `s.trim_end()` */
  function TrimEnd(s: string): (r: string)
    ensures |r| <= |s| && r == s[..|r|]
    ensures forall k :: |r| <= k < |s| ==> IsWhitespace(s[k])
    ensures r != [] ==> !IsWhitespace(r[|r| - 1])
    decreases |s|
  {
    if |s| > 0 && IsWhitespace(s[|s| - 1]) then TrimEnd(s[..|s| - 1]) else s
  }

  /** `r` is `s` with its leading and trailing whitespace removed, where
      `r` sits at offset `a` of `s`. */
  ghost predicate TrimWindow(s: string, a: int, r: string)
  {
    && 0 <= a && a + |r| <= |s| && s[a..a + |r|] == r
    && (forall k :: 0 <= k < a ==> IsWhitespace(s[k]))
    && (forall k :: a + |r| <= k < |s| ==> IsWhitespace(s[k]))
    && (r != [] ==> !IsWhitespace(r[0]) && !IsWhitespace(r[|r| - 1]))
  }

  /** `s.trim()`: the window of `s` left after whitespace is removed from
      both ends. */
  function Trim(s: string): (r: string)
    ensures exists a :: TrimWindow(s, a, r)
  {
    var t := TrimStart(s);
    var r := TrimEnd(t);
    TrimStartThenEnd(s, t, r);
    r
  }

  /** Trimming the start and then the end leaves the trim window. */
  lemma TrimStartThenEnd(s: string, t: string, r: string)
    requires |t| <= |s| && t == s[|s| - |t|..]
    requires forall k :: 0 <= k < |s| - |t| ==> IsWhitespace(s[k])
    requires t != [] ==> !IsWhitespace(t[0])
    requires |r| <= |t| && r == t[..|r|]
    requires forall k :: |r| <= k < |t| ==> IsWhitespace(t[k])
    requires r != [] ==> !IsWhitespace(r[|r| - 1])
    ensures TrimWindow(s, |s| - |t|, r)
  {
    var a := |s| - |t|;
    assert s[a..a + |r|] == r by {
      assert s[a..][..|r|] == s[a..a + |r|];
    }
    if r != [] {
      assert r[0] == t[0];
    }
    forall k | a + |r| <= k < |s|
      ensures IsWhitespace(s[k])
    {
      assert s[k] == t[k - a];
    }
  }

  /** There is only one way to trim a string: `Trim` is fully determined by
      its window property. */
  lemma TrimWindowUnique(s: string, a: int, r: string, b: int, q: string)
    requires TrimWindow(s, a, r) && TrimWindow(s, b, q)
    ensures r == q
  {
    if r != [] && q != [] {
      assert s[a] == r[0] && s[b] == q[0];
      assert a == b;
      assert s[a + |r| - 1] == r[|r| - 1] && s[b + |q| - 1] == q[|q| - 1];
      assert |r| == |q|;
    }
  }

  /** Trimming twice is trimming once. */
  lemma TrimIdempotent(s: string)
    ensures Trim(Trim(s)) == Trim(s)
  {
    var r := Trim(s);
    var a :| TrimWindow(s, a, r);
    assert TrimWindow(r, 0, r) by {
      assert r[0..|r|] == r;
    }
    var b :| TrimWindow(r, b, Trim(r));
    TrimWindowUnique(r, 0, r, b, Trim(r));
  }

  /** A string without whitespace at either end is its own trim. */
  lemma TrimOfClean(s: string)
    requires s != [] && !IsWhitespace(s[0]) && !IsWhitespace(s[|s| - 1])
    ensures Trim(s) == s
  {
  }

  /** A string that differs from `p` at some position of `p` does not start
      with `p`. */
  lemma MismatchNotPrefix(s: string, p: string, j: nat)
    requires j < |p| && j < |s| && s[j] != p[j]
    ensures !StartsWith(s, p)
  {
  }

  /** A string that lacks the first character of `sub` does not contain it. */
  lemma MissingFirstCharNotContained(s: string, sub: string)
    requires sub != [] && sub[0] !in s
    ensures !Contains(s, sub)
  {
  }

  /** Number of bytes in the UTF-8 encoding of `c`. */
  function Utf8Width(c: char): nat
  {
    if c as int < 0x80 then 1
    else if c as int < 0x800 then 2
    else if c as int < 0x1_0000 then 3
    else 4
  }

  /** `s.len()`: the length of `s` in UTF-8 bytes. */
  function ByteLen(s: string): nat
  {
    if s == [] then 0 else Utf8Width(s[0]) + ByteLen(s[1..])
  }

  lemma {:induction false} ByteLenAppend(p: string, q: string)
    ensures ByteLen(p + q) == ByteLen(p) + ByteLen(q)
  {
    if p != [] {
      assert (p + q)[1..] == p[1..] + q;
      ByteLenAppend(p[1..], q);
    } else {
      assert p + q == q;
    }
  }

  /** A literal that is a proper prefix of another is also shorter in bytes,
      so ordering by `len()` agrees with ordering by characters on literals
      that start the same text. */
  lemma ByteLenProperPrefix(p: string, q: string)
    requires StartsWith(q, p) && |p| < |q|
    ensures ByteLen(p) < ByteLen(q)
  {
    var rest := q[|p|..];
    assert q == p + rest;
    ByteLenAppend(p, rest);
  }
}
