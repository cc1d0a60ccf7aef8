/** The command matcher `utils::parse_command`: trim the message text, strip
    the longest configured prefix, then recognise the longest command literal
    that starts what is left. */
module Command {
  import opened Optional
  import opened Strings

  /** The `(matched, args, command)` triple the matcher returns. */
  datatype MatchResult = MatchResult(matched: bool, args: string, command: string)

  /** `(false, String::new(), String::new())` */
  const NoMatch := MatchResult(false, "", "")

  /** Sorted by `len()` from longest to shortest. */
  ghost predicate DescendingByLen(xs: seq<string>)
  {
    forall i, j :: 0 <= i < j < |xs| ==> ByteLen(xs[i]) >= ByteLen(xs[j])
  }

  /** A literal no shorter than every literal of a sorted list can head it. */
  lemma ConsDescending(h: string, rest: seq<string>)
    requires DescendingByLen(rest)
    requires forall k :: 0 <= k < |rest| ==> ByteLen(h) >= ByteLen(rest[k])
    ensures DescendingByLen([h] + rest)
  {
    forall i, j | 0 <= i < j < |rest| + 1
      ensures ByteLen(([h] + rest)[i]) >= ByteLen(([h] + rest)[j])
    {
      if i > 0 {
        assert ([h] + rest)[i] == rest[i - 1];
      }
      assert ([h] + rest)[j] == rest[j - 1];
    }
  }

  /** Places `x` in front of the first literal that is not longer than it,
      so that literals of equal length keep their configured order. */
  function InsertByLen(x: string, ys: seq<string>): (r: seq<string>)
    requires DescendingByLen(ys)
    ensures multiset(r) == multiset(ys) + multiset{x}
    ensures DescendingByLen(r)
  {
    if ys == [] || ByteLen(x) >= ByteLen(ys[0]) then
      [x] + ys
    else
      var rest := InsertByLen(x, ys[1..]);
      assert ys == [ys[0]] + ys[1..];
      forall k | 0 <= k < |rest|
        ensures ByteLen(ys[0]) >= ByteLen(rest[k])
      {
        assert rest[k] in multiset(ys[1..]) + multiset{x};
        if rest[k] != x {
          var m :| 0 <= m < |ys[1..]| && ys[1..][m] == rest[k];
          assert ys[1..][m] == ys[m + 1];
        }
      }
      ConsDescending(ys[0], rest);
      [ys[0]] + rest
  }

  /** `v.sort_by_key(|b| Reverse(b.len()))`: a stable sort by descending
      byte length. */
  function SortByLenDesc(xs: seq<string>): (r: seq<string>)
    ensures multiset(r) == multiset(xs)
    ensures DescendingByLen(r)
  {
    if xs == [] then []
    else
      assert xs == [xs[0]] + xs[1..];
      InsertByLen(xs[0], SortByLenDesc(xs[1..]))
  }

  /** `c` is the longest literal of `xs` that starts `text`. */
  ghost predicate IsLongestMatch(xs: seq<string>, text: string, c: string)
  {
    && c in xs
    && StartsWith(text, c)
    && forall d :: d in xs && StartsWith(text, d) ==> |d| <= |c|
  }

  /** Two literals that both start `text` are ordered by the prefix relation. */
  lemma StartingLiteralsNest(text: string, c: string, d: string)
    requires StartsWith(text, c) && StartsWith(text, d) && |c| <= |d|
    ensures StartsWith(d, c)
  {
    assert d[..|c|] == text[..|d|][..|c|] == text[..|c|];
  }

  /** The first literal of a descending-length list that starts `text` is
      the longest literal of the list that starts `text`. */
  lemma FirstOfSortedIsLongest(sorted: seq<string>, text: string, i: nat)
    requires DescendingByLen(sorted)
    requires i < |sorted| && StartsWith(text, sorted[i])
    requires forall j :: 0 <= j < i ==> !StartsWith(text, sorted[j])
    ensures forall d :: d in sorted && StartsWith(text, d) ==> |d| <= |sorted[i]|
  {
    forall d | d in sorted && StartsWith(text, d)
      ensures |d| <= |sorted[i]|
    {
      if |d| > |sorted[i]| {
        var j :| 0 <= j < |sorted| && sorted[j] == d;
        StartingLiteralsNest(text, sorted[i], d);
        ByteLenProperPrefix(sorted[i], d);
        assert false;
      }
    }
  }

  /** The matching rule shared by the prefix step and the command step:
      sort the literals longest first and take the first that starts `text`. */
  function LongestMatch(xs: seq<string>, text: string): (r: Option<string>)
    ensures r.None? <==> forall d :: d in xs ==> !StartsWith(text, d)
    ensures r.Some? ==> IsLongestMatch(xs, text, r.value)
  {
    var sorted := SortByLenDesc(xs);
    assert forall d :: d in xs <==> d in sorted by {
      assert forall d :: d in xs <==> d in multiset(xs);
      assert forall d :: d in sorted <==> d in multiset(sorted);
    }
    match FirstIndex(sorted, c => StartsWith(text, c))
    case None => None
    case Some(i) =>
      FirstOfSortedIsLongest(sorted, text, i);
      Some(sorted[i])
  }

  /** Only one literal can be the longest match. */
  lemma LongestMatchUnique(xs: seq<string>, text: string, c: string, d: string)
    requires IsLongestMatch(xs, text, c) && IsLongestMatch(xs, text, d)
    ensures c == d
  {
    assert |c| == |d|;
    assert c == text[..|c|] && d == text[..|d|];
  }

  /** The result depends on which literals are configured, never on the
      order in which they are listed. */
  lemma LongestMatchOrderIndependent(xs: seq<string>, ys: seq<string>, text: string)
    requires forall d :: d in xs <==> d in ys
    ensures LongestMatch(xs, text) == LongestMatch(ys, text)
  {
    var r, q := LongestMatch(xs, text), LongestMatch(ys, text);
    if r.Some? && q.Some? {
      assert IsLongestMatch(xs, text, q.value);
      LongestMatchUnique(xs, text, r.value, q.value);
    }
  }

  /** Step 1 of the matcher: the trimmed text with the longest matching
      prefix stripped and the remainder trimmed again; the trimmed text
      itself when no prefixes are configured; `None` when prefixes are
      configured and none of them starts the trimmed text. */
  function StripPrefix(text: string, prefixes: seq<string>): (r: Option<string>)
    ensures prefixes == [] ==> r == Some(Trim(text))
    ensures prefixes != [] ==>
      (r.None? <==> forall p :: p in prefixes ==> !StartsWith(Trim(text), p))
    ensures prefixes != [] && r.Some? ==>
      exists p :: IsLongestMatch(prefixes, Trim(text), p) && r.value == Trim(Trim(text)[|p|..])
  {
    var t := Trim(text);
    if prefixes == [] then Some(t)
    else
      match LongestMatch(prefixes, t)
      case None => None
      case Some(p) => Some(Trim(t[|p|..]))
  }

  /** `utils::parse_command(text, prefixes, commands)` */
  function ParseCommand(text: string, prefixes: seq<string>, commands: seq<string>): (r: MatchResult)
    ensures prefixes != [] && (forall p :: p in prefixes ==> !StartsWith(Trim(text), p)) ==> r == NoMatch
    ensures !r.matched ==> r == NoMatch
    ensures r.matched <==>
      var clean := StripPrefix(text, prefixes);
      clean.Some? && exists c :: c in commands && StartsWith(clean.value, c)
    ensures r.matched ==>
      var clean := StripPrefix(text, prefixes).value;
      && IsLongestMatch(commands, clean, r.command)
      && r.args == Trim(clean[|r.command|..])
  {
    var stripped := StripPrefix(text, prefixes);
    if stripped.None? then
      NoMatch
    else
      var clean := stripped.value;
      var found := LongestMatch(commands, clean);
      if found.None? then
        assert forall c :: c in commands ==> !StartsWith(clean, c);
        NoMatch
      else
        var c := found.value;
        assert c in commands && StartsWith(clean, c);
        MatchResult(true, Trim(clean[|c|..]), c)
  }

  /** When one configured literal is a proper prefix of another and the text
      starts with the longer one, the shorter one is never the result. */
  lemma LongerCommandWins(text: string, prefixes: seq<string>, commands: seq<string>, a: string, b: string)
    requires a in commands && b in commands && StartsWith(b, a) && |a| < |b|
    requires StripPrefix(text, prefixes).Some? && StartsWith(StripPrefix(text, prefixes).value, b)
    ensures ParseCommand(text, prefixes, commands).matched
    ensures ParseCommand(text, prefixes, commands).command != a
    ensures |ParseCommand(text, prefixes, commands).command| >= |b|
  {
  }

  /** Reordering the configured prefixes never changes the prefix step. */
  lemma StripPrefixOrderIndependent(text: string, prefixes: seq<string>, prefixes': seq<string>)
    requires forall p :: p in prefixes <==> p in prefixes'
    ensures StripPrefix(text, prefixes) == StripPrefix(text, prefixes')
  {
    assert prefixes == [] <==> prefixes' == [] by {
      if prefixes != [] { assert prefixes[0] in prefixes'; }
      if prefixes' != [] { assert prefixes'[0] in prefixes; }
    }
    LongestMatchOrderIndependent(prefixes, prefixes', Trim(text));
  }

  /** Reordering the configured prefixes or commands never changes what the
      matcher returns. */
  lemma ParseCommandOrderIndependent(text: string, prefixes: seq<string>, prefixes': seq<string>,
                                     commands: seq<string>, commands': seq<string>)
    requires forall p :: p in prefixes <==> p in prefixes'
    requires forall c :: c in commands <==> c in commands'
    ensures ParseCommand(text, prefixes, commands) == ParseCommand(text, prefixes', commands')
  {
    StripPrefixOrderIndependent(text, prefixes, prefixes');
    match StripPrefix(text, prefixes)
    case None =>
    case Some(clean) =>
      LongestMatchOrderIndependent(commands, commands', clean);
  }
}
