/** Facts about the concrete strings and segments used in the scenarios
    below, each proved on its own so that the solver never has to evaluate
    the whole pipeline on literals. */
module ScenarioFacts {
  import opened Optional
  import opened Strings
  import opened Command
  import opened Url
  import opened ParseInt
  import opened Segments
  import opened Dispatch

  /** Of the default vocabularies, only the media command `c` ("转视频" or
      "转图片") starts a text that begins with `c`. */
  lemma MediaCommandVocabulary(text: string, c: string, toUrl: seq<string>, toMedia: seq<string>)
    requires c == "转视频" || c == "转图片"
    requires |text| >= 3 && text[..3] == c
    requires toUrl == DefaultConfig.cmdToUrl
    requires toMedia == DefaultConfig.cmdToMedia
    ensures forall d :: d in toUrl ==> !StartsWith(text, d)
    ensures forall d :: d in toMedia && StartsWith(text, d) ==> d == c
  {
    assert text[0] == '转' && text[1] == c[1];
    forall d | d in toUrl
      ensures !StartsWith(text, d)
    {
      if d == "url" || d == "提取地址" { MismatchNotPrefix(text, d, 0); } else { MismatchNotPrefix(text, d, 1); }
    }
    forall d | d in toMedia && d != c
      ensures !StartsWith(text, d)
    {
      if d == "转图片" || d == "转视频" { MismatchNotPrefix(text, d, 1); } else { MismatchNotPrefix(text, d, 0); }
    }
  }

  /** With no prefixes configured, a trimmed text is matched against the
      one literal that starts it. */
  lemma SoleCommand(text: string, commands: seq<string>, c: string)
    requires Trim(text) == text
    requires c in commands && StartsWith(text, c)
    requires forall d :: d in commands && StartsWith(text, d) ==> d == c
    ensures ParseCommand(text, [], commands) == MatchResult(true, Trim(text[|c|..]), c)
  {
  }

  /** With no prefixes configured, a trimmed text that no literal starts is
      not a command. */
  lemma NoCommand(text: string, commands: seq<string>)
    requires Trim(text) == text
    requires forall d :: d in commands ==> !StartsWith(text, d)
    ensures ParseCommand(text, [], commands) == NoMatch
  {
  }

  /** The arguments after "command link" are the link. */
  lemma ArgsAfterCommand(c: string, s: string)
    requires s != [] && !IsWhitespace(s[0]) && !IsWhitespace(s[|s| - 1])
    ensures Trim((c + " " + s)[|c|..]) == s
  {
    assert (c + " " + s)[|c|..] == " " + s;
    assert (" " + s)[1..] == s;
  }

  /** Every character of a printable-ASCII string may appear in a link. */
  lemma PrintableAsciiUrlChars(s: string)
    requires forall c :: c in s ==> '!' <= c <= '~'
    ensures forall c :: c in s ==> IsUrlChar(c)
  {
  }

  /** A printable-ASCII `https://` link followed by nothing, a space or
      CJK text is extracted exactly. */
  lemma AsciiLinkBetween(before: string, link: string, after: string)
    requires 'h' !in before
    requires |link| > 8 && link[..8] == "https://"
    requires forall c :: c in link ==> '!' <= c <= '~'
    requires after == [] || !IsUrlChar(after[0])
    ensures ExtractUrl(before + link + after) == Some(link)
  {
    assert link[0..] == link;
    assert SchemeLen(link, 0) == 8;
    PrintableAsciiUrlChars(link);
    LinkBetween(before, link, after);
  }

  lemma VideoLinkChars(link: string)
    requires link == "https://media.example/clip.mp4"
    ensures |link| > 8 && link[..8] == "https://"
    ensures forall c :: c in link ==> '!' <= c <= '~'
  {
  }

  lemma VideoLink(link: string)
    requires link == "https://media.example/clip.mp4"
    ensures ExtractUrl(link) == Some(link)
    ensures EndsWith(link, ".mp4")
  {
    VideoLinkChars(link);
    AsciiLinkBetween([], link, []);
    assert [] + link + [] == link;
  }

  lemma PictureLinkChars(link: string)
    requires link == "https://pics.example/dog.png"
    ensures |link| > 8 && link[..8] == "https://"
    ensures forall c :: c in link ==> '!' <= c <= '~'
    ensures !EndsWith(link, ".mp4") && !EndsWith(link, ".mov")
  {
  }

  lemma PictureLink(before: string, link: string, after: string)
    requires before == "look " && link == "https://pics.example/dog.png" && after == " ok"
    ensures ExtractUrl(before + link + after) == Some(link)
    ensures !EndsWith(link, ".mp4") && !EndsWith(link, ".mov")
  {
    PictureLinkChars(link);
    assert 'h' !in before;
    assert !IsUrlChar(after[0]);
    AsciiLinkBetween(before, link, after);
  }

  /** A message made of one text segment flattens to that segment's text. */
  lemma SingleTextSegment(segs: seq<Segment>, s: string)
    requires segs == [Segment("text", Absent, Absent, Absent, Str(s))]
    ensures TextOf(segs) == s
  {
    assert segs[1..] == [];
  }

  lemma ImageCommandNotVideo(text: string)
    requires text == "转图片"
    ensures !Contains(text, "视频")
  {
    MissingFirstCharNotContained(text, "视频");
  }

  /** "转视频 <link>" is already trimmed, starts with the command and has
      the link as its trimmed remainder. */
  lemma VideoCommandText(command: string, link: string)
    requires command == "转视频" && link == "https://media.example/clip.mp4"
    ensures var text := command + " " + link;
      && Trim(text) == text && |text| >= 3 && text[..3] == command && Trim(text[|command|..]) == link
  {
    var text := command + " " + link;
    TrimOfClean(text);
    assert text[..3] == command;
    ArgsAfterCommand(command, link);
  }

  /** A trimmed text that starts with "转视频" is that media command, with
      the trimmed remainder as its arguments, and no link command. */
  lemma VideoCommandParse(text: string, args: string, toUrl: seq<string>, toMedia: seq<string>)
    requires Trim(text) == text && |text| >= 3 && text[..3] == "转视频" && Trim(text[3..]) == args
    requires toUrl == DefaultConfig.cmdToUrl
    requires toMedia == DefaultConfig.cmdToMedia
    ensures ParseCommand(text, [], toUrl) == NoMatch
    ensures ParseCommand(text, [], toMedia) == MatchResult(true, args, "转视频")
  {
    MediaCommandVocabulary(text, "转视频", toUrl, toMedia);
    NoCommand(text, toUrl);
    assert toMedia[1] == "转视频";
    SoleCommand(text, toMedia, "转视频");
  }

  lemma ImageCommandParse(text: string, toUrl: seq<string>, toMedia: seq<string>)
    requires text == "转图片"
    requires toUrl == DefaultConfig.cmdToUrl
    requires toMedia == DefaultConfig.cmdToMedia
    ensures ParseCommand(text, [], toUrl) == NoMatch
    ensures ParseCommand(text, [], toMedia) == MatchResult(true, "", text)
  {
    assert Trim(text) == text by {
      TrimOfClean(text);
    }
    MediaCommandVocabulary(text, text, toUrl, toMedia);
    NoCommand(text, toUrl);
    SoleCommand(text, toMedia, text);
    assert text[3..] == [];
  }

  /** A message quoting message 42, whose only segment is the text `s`. */
  lemma QuotedText(segs: seq<Segment>, quoted: seq<Segment>, s: string, lookup: Lookup)
    requires segs == [Segment("reply", Absent, Absent, Str("42"), Absent)]
    requires quoted == [Segment("text", Absent, Absent, Absent, Str(s))]
    requires s != [] && lookup(42) == Some(quoted)
    ensures GetReplyText(segs, lookup) == Some(s)
  {
    assert IsReplyWithId(segs[0]);
    NumericId(segs[0].id.s);
    assert QuotedSegments(segs, lookup) == Some(quoted);
    SingleTextSegment(quoted, s);
  }

  lemma NumericId(id: string)
    requires id == "42"
    ensures ParseI32(id) == Some(42)
  {
    ParseShowRoundTrip(42);
    assert ShowInt(42) == "42";
  }
}

/** Concrete messages and the outcome the model gives each of them. */
module Scenarios {
  import opened Optional
  import opened Strings
  import opened Command
  import opened Url
  import opened Segments
  import opened Dispatch
  import opened ScenarioFacts

  /** A link followed by a space ends at the space. */
  lemma LinkStopsAtSpace(before: string, link: string, after: string)
    requires before == "预览 " && link == "https://pics.example/cat.jpg" && after == " 谢谢"
    ensures ExtractUrl(before + link + after) == Some(link)
  {
    assert 'h' !in before;
    assert |link| > 8 && link[..8] == "https://";
    assert forall c :: c in link ==> '!' <= c <= '~';
    assert !IsUrlChar(after[0]);
    AsciiLinkBetween(before, link, after);
  }

  /** A link written right up against Chinese text, with no space on either
      side, ends at the first CJK character. */
  lemma LinkStopsAtChineseText(before: string, link: string, after: string)
    requires before == "预览" && link == "https://pics.example/cat.jpg" && after == "谢谢"
    ensures ExtractUrl(before + link + after) == Some(link)
  {
    assert 'h' !in before;
    assert |link| > 8 && link[..8] == "https://";
    assert forall c :: c in link ==> '!' <= c <= '~';
    assert IsCjk(after[0]);
    AsciiLinkBetween(before, link, after);
  }

  /** Text without any link yields nothing. */
  lemma NoLinkInPlainText(text: string)
    requires text == "just some words"
    ensures ExtractUrl(text) == None
  {
    NoColonNoLink(text);
  }

  /** A picture attached to the command message wins over a quoted message,
      whatever the quoted message holds. */
  lemma AttachedPictureBeatsQuote(segs: seq<Segment>, picture: string, id: string, lookup: Lookup)
    requires segs == [Segment("image", Str(picture), Absent, Absent, Absent),
                      Segment("reply", Absent, Absent, Str(id), Absent)]
    ensures FindMediaUrl(segs, lookup) == Some(Media(picture, Image))
  {
    assert HasMedia(segs[0]);
  }

  /** A quoted video that carries only a `file` entry is found through the
      quote and labelled as a video. */
  lemma QuotedVideoFileFallback(segs: seq<Segment>, quoted: seq<Segment>, file: string, lookup: Lookup)
    requires segs == [Segment("reply", Absent, Absent, Str("42"), Absent)]
    requires quoted == [Segment("video", Absent, Str(file), Absent, Absent)]
    requires lookup(42) == Some(quoted)
    ensures FindMediaUrl(segs, lookup) == Some(Media(file, Video))
  {
    assert !HasMedia(segs[0]);
    assert IsReplyWithId(segs[0]);
    NumericId(segs[0].id.s);
    assert QuotedSegments(segs, lookup) == Some(quoted);
    assert HasMedia(quoted[0]);
  }

  /** "转视频 <link to an .mp4>" under the default configuration sends the
      link back as a video. */
  lemma VideoCommandWithLink(cfg: Config, command: string, link: string, segs: seq<Segment>, lookup: Lookup)
    requires cfg == DefaultConfig
    requires command == "转视频" && link == "https://media.example/clip.mp4"
    ensures Decide(cfg, Some(command + " " + link), segs, lookup) == MediaReply(link, Video)
  {
    VideoCommandText(command, link);
    VideoCommandParse(command + " " + link, link, cfg.cmdToUrl, cfg.cmdToMedia);
    VideoLink(link);
    MediaCommandOutcome(cfg, command + " " + link, segs, lookup, link);
  }

  /** "转图片" quoting a message whose text holds a link sends that link
      back as a picture. */
  lemma ImageCommandQuotingLink(cfg: Config, text: string, segs: seq<Segment>, quoted: seq<Segment>,
                                before: string, link: string, after: string, lookup: Lookup)
    requires cfg == DefaultConfig && text == "转图片"
    requires before == "look " && link == "https://pics.example/dog.png" && after == " ok"
    requires segs == [Segment("reply", Absent, Absent, Str("42"), Absent)]
    requires quoted == [Segment("text", Absent, Absent, Absent, Str(before + link + after))]
    requires lookup(42) == Some(quoted)
    ensures Decide(cfg, Some(text), segs, lookup) == MediaReply(link, Image)
  {
    ImageCommandParse(text, cfg.cmdToUrl, cfg.cmdToMedia);
    NoColonNoLink("");
    QuotedText(segs, quoted, before + link + after, lookup);
    PictureLink(before, link, after);
    MediaCommandOutcome(cfg, text, segs, lookup, link);
    ImageCommandNotVideo(text);
  }
}
