/** The message handler registered with `PluginBuilder::on_msg`, as one pure
    decision from a configuration snapshot, the message text, the message's
    segments and the quoted-message lookup to the single reply it sends. */
module Dispatch {
  import opened Optional
  import opened Strings
  import opened Command
  import opened Url
  import opened Segments

  /** A read-only snapshot of the plugin configuration. */
  datatype Config = Config(
    enabled: bool,
    prefixes: seq<string>,
    cmdToUrl: seq<string>,    // "media to link" commands
    cmdToMedia: seq<string>   // "link to media" commands
  )

  /** The configuration written when none is stored yet. */
  const DefaultConfig := Config(
    true,
    [],
    ["转链接", "看链接", "提取地址", "url"],
    ["转图片", "转视频", "预览", "看看"]
  )

  /** The reply, if any, that one incoming message gets. */
  datatype Outcome =
    | NoAction                                    // not for this plugin
    | LinkReply(link: string, kind: MediaKind)    // the extracted direct link, labelled
    | LinkApology                                 // no picture or video found
    | MediaReply(link: string, kind: MediaKind)   // the link sent back as an attachment
    | MediaApology                                // no link found

  /** The word "video"; a media command containing it always sends a video. */
  const VideoWord := "视频"

  /** The text invokes one of the "media to link" commands. */
  predicate IsLinkCommand(cfg: Config, text: string)
  {
    ParseCommand(text, cfg.prefixes, cfg.cmdToUrl).matched
  }

  /** The text invokes one of the "link to media" commands. */
  predicate IsMediaCommand(cfg: Config, text: string)
  {
    ParseCommand(text, cfg.prefixes, cfg.cmdToMedia).matched
  }

  /** The tie-break between a video and a picture reply. */
  function ReplyKind(command: string, link: string): (k: MediaKind)
    ensures Contains(command, VideoWord) ==> k == Video
    ensures EndsWith(link, ".mp4") || EndsWith(link, ".mov") ==> k == Video
    ensures k == Image <==>
      && (forall i :: !OccursAt(command, VideoWord, i))
      && !(|link| >= 4 && link[|link| - 4..] in {".mp4", ".mov"})
  {
    if Contains(command, VideoWord) || EndsWith(link, ".mp4") || EndsWith(link, ".mov")
    then Video else Image
  }

  /** The link a media command acts on: the first link in its arguments,
      otherwise the first link in the quoted message's text. */
  function TargetUrl(args: string, segs: seq<Segment>, lookup: Lookup): (r: Option<string>)
    ensures ExtractUrl(args).Some? ==> r == ExtractUrl(args)
    ensures ExtractUrl(args).None? ==>
      (r.Some? <==> GetReplyText(segs, lookup).Some? && ExtractUrl(GetReplyText(segs, lookup).value).Some?)
    ensures ExtractUrl(args).None? && r.Some? ==>
      exists i: nat, k: nat ::
        LeftmostGreedy(GetReplyText(segs, lookup).value, i, k) && r.value == GetReplyText(segs, lookup).value[i..k]
  {
    match ExtractUrl(args)
    case Some(u) => Some(u)
    case None =>
      match GetReplyText(segs, lookup)
      case None => None
      case Some(quoted) => ExtractUrl(quoted)
  }

  /** The body of the `on_msg` handler. `text` is the message's plain text,
      absent when it has none. */
  function Decide(cfg: Config, text: Option<string>, segs: seq<Segment>, lookup: Lookup): (r: Outcome)
    ensures !cfg.enabled || text.None? ==> r == NoAction
    ensures r == NoAction <==>
      || !cfg.enabled
      || text.None?
      || (!IsLinkCommand(cfg, text.value) && !IsMediaCommand(cfg, text.value))
    ensures r.LinkReply? || r.LinkApology? <==>
      cfg.enabled && text.Some? && IsLinkCommand(cfg, text.value)
    ensures r.MediaReply? || r.MediaApology? <==>
      cfg.enabled && text.Some? && !IsLinkCommand(cfg, text.value) && IsMediaCommand(cfg, text.value)
    ensures r.LinkReply? ==> FindMediaUrl(segs, lookup) == Some(Media(r.link, r.kind))
    ensures r.LinkApology? ==> FindMediaUrl(segs, lookup).None?
    ensures r.MediaReply? || r.MediaApology? ==>
      var m := ParseCommand(text.value, cfg.prefixes, cfg.cmdToMedia);
      && (r.MediaReply? ==> TargetUrl(m.args, segs, lookup) == Some(r.link))
      && (r.MediaApology? ==> TargetUrl(m.args, segs, lookup).None?)
    ensures r.MediaReply? ==>
      var m := ParseCommand(text.value, cfg.prefixes, cfg.cmdToMedia);
      r.kind == Video <==>
        Contains(m.command, VideoWord) || EndsWith(r.link, ".mp4") || EndsWith(r.link, ".mov")
  {
    if text.None? || !cfg.enabled then NoAction
    else if IsLinkCommand(cfg, text.value) then
      match FindMediaUrl(segs, lookup)
      case Some(media) => LinkReply(media.url, media.kind)
      case None => LinkApology
    else if IsMediaCommand(cfg, text.value) then
      var m := ParseCommand(text.value, cfg.prefixes, cfg.cmdToMedia);
      match TargetUrl(m.args, segs, lookup)
      case Some(link) => MediaReply(link, ReplyKind(m.command, link))
      case None => MediaApology
    else NoAction
  }

  /** A "media to link" command is answered without looking at the
      "link to media" vocabulary at all. */
  lemma LinkCommandIgnoresMediaVocabulary(cfg: Config, cmdToMedia': seq<string>, text: string,
                                          segs: seq<Segment>, lookup: Lookup)
    requires cfg.enabled && IsLinkCommand(cfg, text)
    ensures Decide(cfg, Some(text), segs, lookup) == Decide(cfg.(cmdToMedia := cmdToMedia'), Some(text), segs, lookup)
  {
  }

  /** A link found in a media command's arguments is used as it is: the
      quoted message is never consulted. */
  lemma ArgumentLinkIgnoresQuote(cfg: Config, text: string, segs: seq<Segment>,
                                 lookup: Lookup, lookup': Lookup)
    requires cfg.enabled && !IsLinkCommand(cfg, text) && IsMediaCommand(cfg, text)
    requires ExtractUrl(ParseCommand(text, cfg.prefixes, cfg.cmdToMedia).args).Some?
    ensures Decide(cfg, Some(text), segs, lookup) == Decide(cfg, Some(text), segs, lookup')
    ensures Decide(cfg, Some(text), segs, lookup).MediaReply?
    ensures Decide(cfg, Some(text), segs, lookup).link
            == ExtractUrl(ParseCommand(text, cfg.prefixes, cfg.cmdToMedia).args).value
  {
  }

  /** A media command whose link is found is answered with that link, as a
      video or a picture by the tie-break. */
  lemma MediaCommandOutcome(cfg: Config, text: string, segs: seq<Segment>, lookup: Lookup, link: string)
    requires cfg.enabled && !IsLinkCommand(cfg, text) && IsMediaCommand(cfg, text)
    requires TargetUrl(ParseCommand(text, cfg.prefixes, cfg.cmdToMedia).args, segs, lookup) == Some(link)
    ensures Decide(cfg, Some(text), segs, lookup)
            == MediaReply(link, ReplyKind(ParseCommand(text, cfg.prefixes, cfg.cmdToMedia).command, link))
  {
  }
}
