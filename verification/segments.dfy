/** Message segments and the selectors over them: the quoted-text flattener
    `utils::get_reply_text` and the media locator `utils::find_media_url`.
    The host's `bot.get_msg(id)` is the parameter `lookup`, which returns the
    quoted message's segments, or `None` when the call fails or its answer
    has no `message` array. */
module Segments {
  import opened Optional
  import opened ParseInt

  /** One payload entry of a segment as JSON gives it: missing, a string, or
      some other JSON value (a number, `null`, …). */
  datatype Field = Absent | Str(s: string) | NonStr

  /** A segment: its `type` tag and the payload entries the plugin reads. */
  datatype Segment = Segment(kind: string, url: Field, file: Field, id: Field, text: Field)

  datatype MediaKind = Image | Video

  /** A resolved attachment: its direct link and whether it is a picture or
      a video. */
  datatype Media = Media(url: string, kind: MediaKind)

  /** The quoted message as the host returns it. */
  type Lookup = int -> Option<seq<Segment>>

  /** `.and_then(|v| v.as_str())` */
  function AsStr(f: Field): Option<string>
  {
    if f.Str? then Some(f.s) else None
  }

  /** `data.get(a).or(data.get(b))`: the first entry that is present, string
      or not. */
  function OrElse(a: Field, b: Field): Field
  {
    if a.Absent? then b else a
  }

  /** What one segment contributes to the media search: an `image` with a
      string `url`, or a `video` whose `url` entry, or `file` entry when `url`
      is missing, is a string. */
  function SegmentMedia(seg: Segment): (r: Option<Media>)
    ensures r.Some? && r.value.kind == Image <==> seg.kind == "image" && seg.url.Str?
    ensures r.Some? && r.value.kind == Video <==>
      seg.kind == "video" && (seg.url.Str? || (seg.url.Absent? && seg.file.Str?))
    ensures r.Some? ==>
      || (seg.url.Str? && r.value.url == seg.url.s)
      || (r.value.kind == Video && seg.url.Absent? && seg.file.Str? && r.value.url == seg.file.s)
  {
    if seg.kind == "image" then
      match AsStr(seg.url)
      case Some(u) => Some(Media(u, Image))
      case None => None
    else if seg.kind == "video" then
      match AsStr(OrElse(seg.url, seg.file))
      case Some(u) => Some(Media(u, Video))
      case None => None
    else None
  }

  predicate HasMedia(seg: Segment)
  {
    SegmentMedia(seg).Some?
  }

  /** Segment `i` is the first one that yields media. */
  ghost predicate FirstMediaAt(segs: seq<Segment>, i: int)
  {
    && 0 <= i < |segs|
    && HasMedia(segs[i])
    && forall j :: 0 <= j < i ==> !HasMedia(segs[j])
  }

  /** The media of the first segment that yields any. */
  function FirstMedia(segs: seq<Segment>): (r: Option<Media>)
    ensures r.None? <==> forall i :: 0 <= i < |segs| ==> !HasMedia(segs[i])
    ensures r.Some? ==> exists i :: FirstMediaAt(segs, i) && r == SegmentMedia(segs[i])
  {
    match FirstIndex(segs, HasMedia)
    case None => None
    case Some(i) =>
      assert FirstMediaAt(segs, i);
      SegmentMedia(segs[i])
  }

  predicate IsReplyWithId(seg: Segment)
  {
    seg.kind == "reply" && seg.id.Str?
  }

  /** Segment `i` is the first `reply` segment whose `id` entry is a string. */
  ghost predicate FirstReplyAt(segs: seq<Segment>, i: int)
  {
    && 0 <= i < |segs|
    && IsReplyWithId(segs[i])
    && forall j :: 0 <= j < i ==> !IsReplyWithId(segs[j])
  }

  /** The `find_map` over the message: the id of the first `reply` segment
      whose `id` entry is a string. */
  function ReplyId(segs: seq<Segment>): (r: Option<string>)
    ensures r.None? <==> forall i :: 0 <= i < |segs| ==> !IsReplyWithId(segs[i])
    ensures r.Some? ==> exists i :: FirstReplyAt(segs, i) && segs[i].id.s == r.value
  {
    match FirstIndex(segs, IsReplyWithId)
    case None => None
    case Some(i) =>
      assert FirstReplyAt(segs, i);
      Some(segs[i].id.s)
  }

  /** The quoted message's segments: the reply id parsed as an `i32` and
      looked up; `None` when any of these steps fails. */
  function QuotedSegments(segs: seq<Segment>, lookup: Lookup): (r: Option<seq<Segment>>)
    ensures (forall i :: 0 <= i < |segs| ==> !IsReplyWithId(segs[i])) ==> r.None?
    ensures forall i :: FirstReplyAt(segs, i) && ParseI32(segs[i].id.s).None? ==> r.None?
    ensures forall i :: FirstReplyAt(segs, i) && ParseI32(segs[i].id.s).Some? ==>
      r == lookup(ParseI32(segs[i].id.s).value)
  {
    match ReplyId(segs)
    case None => None
    case Some(id) =>
      FirstReplyUnique(segs);
      match ParseI32(id)
      case None => None
      case Some(n) => lookup(n)
  }

  /** There is at most one first reply segment. */
  lemma FirstReplyUnique(segs: seq<Segment>)
    ensures forall i, j :: FirstReplyAt(segs, i) && FirstReplyAt(segs, j) ==> i == j
  {
  }

  /** The text a segment contributes when flattened: the string `text` entry
      of a `text` segment, nothing otherwise. */
  function SegmentText(seg: Segment): string
  {
    if seg.kind == "text" && seg.text.Str? then seg.text.s else ""
  }

  /** The in-order concatenation of the text of all `text` segments. */
  function TextOf(segs: seq<Segment>): string
  {
    if segs == [] then "" else SegmentText(segs[0]) + TextOf(segs[1..])
  }

  /** Flattening distributes over concatenation of segment lists. */
  lemma {:induction false} TextOfAppend(a: seq<Segment>, b: seq<Segment>)
    ensures TextOf(a + b) == TextOf(a) + TextOf(b)
  {
    if a == [] {
      assert a + b == b;
    } else {
      assert (a + b)[1..] == a[1..] + b;
      TextOfAppend(a[1..], b);
    }
  }

  /** The flattened text is empty exactly when no segment contributes any. */
  lemma {:induction false} TextOfEmpty(segs: seq<Segment>)
    ensures TextOf(segs) == [] <==> forall i :: 0 <= i < |segs| ==> SegmentText(segs[i]) == []
  {
    if segs != [] {
      TextOfEmpty(segs[1..]);
      assert forall i :: 1 <= i < |segs| ==> segs[i] == segs[1..][i - 1];
    }
  }

  /** `utils::get_reply_text`: the flattened text of the quoted message,
      `None` when there is no usable quote or its text is empty. */
  function GetReplyText(segs: seq<Segment>, lookup: Lookup): (r: Option<string>)
    ensures r.None? <==>
      || QuotedSegments(segs, lookup).None?
      || forall i :: 0 <= i < |QuotedSegments(segs, lookup).value| ==>
           SegmentText(QuotedSegments(segs, lookup).value[i]) == []
    ensures r.Some? ==> r.value != [] && r.value == TextOf(QuotedSegments(segs, lookup).value)
  {
    match QuotedSegments(segs, lookup)
    case None => None
    case Some(quoted) =>
      var text := TextOf(quoted);
      TextOfEmpty(quoted);
      if text != [] then Some(text) else None
  }

  /** `utils::find_media_url`: the first media segment of the message
      itself, otherwise the first media segment of the quoted message. */
  function FindMediaUrl(segs: seq<Segment>, lookup: Lookup): (r: Option<Media>)
    ensures (exists i :: 0 <= i < |segs| && HasMedia(segs[i])) ==>
      exists i :: FirstMediaAt(segs, i) && r == SegmentMedia(segs[i])
    ensures (forall i :: 0 <= i < |segs| ==> !HasMedia(segs[i])) ==>
      (r.Some? <==>
         && QuotedSegments(segs, lookup).Some?
         && exists j :: 0 <= j < |QuotedSegments(segs, lookup).value| && HasMedia(QuotedSegments(segs, lookup).value[j]))
    ensures (forall i :: 0 <= i < |segs| ==> !HasMedia(segs[i])) && r.Some? ==>
      exists j :: FirstMediaAt(QuotedSegments(segs, lookup).value, j)
                  && r == SegmentMedia(QuotedSegments(segs, lookup).value[j])
  {
    match FirstMedia(segs)
    case Some(m) => Some(m)
    case None =>
      match QuotedSegments(segs, lookup)
      case None => None
      case Some(quoted) => FirstMedia(quoted)
  }

  /** Media attached to the message itself wins whatever the quote holds:
      the lookup is never consulted. */
  lemma OwnMediaIgnoresQuote(segs: seq<Segment>, lookup: Lookup, lookup': Lookup)
    requires exists i :: 0 <= i < |segs| && HasMedia(segs[i])
    ensures FindMediaUrl(segs, lookup) == FindMediaUrl(segs, lookup')
  {
  }
}
